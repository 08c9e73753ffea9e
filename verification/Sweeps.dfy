/** Sweeps as sequences of atomic events on the store, with whatever interactive requests do in between. */
module Sweeps {
  import opened CacheModel

  datatype Event =
    | Begin(ids: set<string>)
    | Attempt(repo: string, key: Key, rank: nat, listed: bool, child: Child)
    | RepoDone(repo: string)
    | End
    | Reconcile(learned: SweepState)
    | FinalEvict(exempt: set<string>)
    | Touch(key: Key, at: int)                        // a hit served to a client
    | InteractivePut(repo: string, key: Key, gz: nat) // a miss served to a client
    | Drop(key: Key)                                  // a row that could not be served in full

  predicate IsFence(t: Table, fence: int)
  {
    && (forall k :: k in t ==> t[k].rowid <= fence)
    && (if t == map[] then fence == 0 else exists k :: k in t && t[k].rowid == fence)
  }

  function Touched(t: Table, k: Key, at: int): Table
  {
    if k in t then t[k := t[k].(access := at)] else t
  }

  /** One atomic event. */
  ghost predicate Step(cfg: Config, s: Store, e: Event, s': Store)
  {
    match e
    case Begin(ids) => IsFence(s.rows, s'.fence) && s' == s.(pending := ids, fence := s'.fence)
    case Attempt(repo, key, rank, listed, child) =>
      && (listed <==> Wanted(cfg, s, repo, key, rank))
      && (if listed then Stores(cfg, s, repo, key, child, s') else s' == s)
    case RepoDone(repo) => s' == s.(pending := s.pending - {repo})
    case End => s' == s.(pending := {})
    case Reconcile(learned) => s' == Reconciled(s, learned)
    case FinalEvict(exempt) => Evicts(cfg, s, exempt, s')
    case Touch(key, at) => s' == s.(rows := Touched(s.rows, key, at))
    case InteractivePut(repo, key, gz) => Puts(cfg, s, key, repo, gz, s')
    case Drop(key) => s' == s.(rows := s.rows - {key})
  }

  datatype Trace = Trace(events: seq<Event>, states: seq<Store>)
  {
    ghost predicate Valid(cfg: Config)
    {
      && |states| == |events| + 1
      && forall i :: 0 <= i < |events| ==> Step(cfg, states[i], events[i], states[i + 1])
    }

    function First(): Store requires |states| > 0 { states[0] }

    function Last(): Store requires |states| > 0 { states[|states| - 1] }
  }

  predicate IsListing(e: Event)
  {
    e.Attempt? && e.listed
  }

  /** How many `list -files` runs the events contain. */
  function Listings(events: seq<Event>): nat
  {
    if events == [] then 0
    else Listings(events[..|events| - 1]) + if IsListing(events[|events| - 1]) then 1 else 0
  }

  // ------------------------------------------------------------------------------
  // Building traces
  // ------------------------------------------------------------------------------

  function Start(s: Store): Trace
  {
    Trace([], [s])
  }

  function Extend(tr: Trace, e: Event, s: Store): Trace
  {
    Trace(tr.events + [e], tr.states + [s])
  }

  lemma ExtendValid(cfg: Config, tr: Trace, e: Event, s: Store)
    requires tr.Valid(cfg) && Step(cfg, tr.Last(), e, s)
    ensures Extend(tr, e, s).Valid(cfg)
    ensures Extend(tr, e, s).First() == tr.First() && Extend(tr, e, s).Last() == s
  {
    hide Step;
    var tr' := Extend(tr, e, s);
    forall i | 0 <= i < |tr'.events|
      ensures Step(cfg, tr'.states[i], tr'.events[i], tr'.states[i + 1])
    {
      if i < |tr.events| {
        assert tr'.states[i] == tr.states[i] && tr'.events[i] == tr.events[i] && tr'.states[i + 1] == tr.states[i + 1];
      }
    }
  }

  /** One trace after another that starts where it stopped. */
  function Join(a: Trace, b: Trace): Trace
    requires |b.states| > 0
  {
    Trace(a.events + b.events, a.states + b.states[1..])
  }

  lemma JoinValid(cfg: Config, a: Trace, b: Trace)
    requires a.Valid(cfg) && b.Valid(cfg) && a.Last() == b.First()
    ensures Join(a, b).Valid(cfg)
    ensures Join(a, b).First() == a.First() && Join(a, b).Last() == b.Last()
  {
    hide Step;
    var tr := Join(a, b);
    var n := |a.events|;
    assert forall i :: 0 <= i <= n ==> tr.states[i] == a.states[i];
    assert forall i :: n <= i < |tr.states| ==> tr.states[i] == b.states[i - n];
    forall i | 0 <= i < |tr.events|
      ensures Step(cfg, tr.states[i], tr.events[i], tr.states[i + 1])
    {
      if i < n {
        assert tr.events[i] == a.events[i];
      } else {
        assert tr.events[i] == b.events[i - n];
      }
    }
  }

  predicate DistinctAttempts(events: seq<Event>)
  {
    forall i, j :: 0 <= i < j < |events| && events[i].Attempt? && events[j].Attempt?
      ==> events[i].repo != events[j].repo || events[i].key != events[j].key
  }

  lemma DistinctConcat(a: seq<Event>, b: seq<Event>)
    requires DistinctAttempts(a) && DistinctAttempts(b)
    requires forall x, y :: x in a && y in b && x.Attempt? && y.Attempt? ==> x.repo != y.repo || x.key != y.key
    ensures DistinctAttempts(a + b)
  {
    forall i, j | 0 <= i < j < |a + b| && (a + b)[i].Attempt? && (a + b)[j].Attempt?
      ensures (a + b)[i].repo != (a + b)[j].repo || (a + b)[i].key != (a + b)[j].key
    {
      if i < |a| <= j {
        assert (a + b)[i] in a && (a + b)[j] in b;
      }
    }
  }
}
