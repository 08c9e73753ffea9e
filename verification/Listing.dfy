/** What a run of the child means to the cache: the bridge from streams to the sizes the sweeps speak about. */
module Listing {
  import S = Streaming
  import opened CacheModel

  /** What listing a revision comes to, told from what the child prints and how that compresses. */
  function ChildOf(codec: S.Codec, script: S.Script, memMax: nat, fileMax: int): Child
  {
    if !S.Spoolable(memMax, fileMax, S.EarlySize(script)) then Listed(S.StreamSize(codec, script))
    else if !script.exitOk then ChildFailed
    else if S.CrossesLate(codec, script, memMax, fileMax) then ClosedLate
    else Listed(S.StreamSize(codec, script))
  }

  /** How the warmer reads the result of a run. */
  predicate ReadAs(cfg: Config, r: S.RunResult, child: Child)
  {
    match r
    case Complete(gz, _) => child == Listed(|gz|) && !OverCeiling(cfg, |gz|)
    case Broken(CeilingFault, _) => child.Listed? && OverCeiling(cfg, child.gz)
    case Broken(IoFault, _) => child == ClosedLate
    case Broken(NoFault, _) => child == ChildFailed
  }

  /**
   With a working file system the result of a run and what the sweeps assume of the revision
   agree: a row or a row-cap marker for a stream that was spooled, a ceiling marker for one
   that was stopped on the way, nothing for one that crossed the ceiling late or failed.
   */
  lemma RunIsChild(cfg: Config, codec: S.Codec, script: S.Script, memMax: nat, io: nat -> bool, r: S.RunResult)
    requires S.Faithful(codec, script) && memMax <= cfg.ceiling
    requires S.AllWell(io) && S.Ran(codec, script, memMax, cfg.ceiling, io, r)
    ensures ReadAs(cfg, r, ChildOf(codec, script, memMax, cfg.ceiling))
  {
    assert S.EarlySize(script) <= S.StreamSize(codec, script);
    S.RunDecides(codec, script, memMax, cfg.ceiling, io, r);
  }

  /** A revision that ends well and is over the ceiling, and that the sweeps yet neither cache nor mark. */
  lemma LateIsNeitherCachedNorMarked()
    ensures S.LATE.exitOk && S.Faithful(S.Stamp(), S.LATE) && S.StreamSize(S.Stamp(), S.LATE) > 1
    ensures ChildOf(S.Stamp(), S.LATE, 1, 1) == ClosedLate
  {
    S.LateSizes();
  }
}
