/** The listing handler and the warmer at the two gates: what is served, and which slots are held while it is. */
module Serving {
  import opened Options
  import opened Streaming

  /** A stored listing: the gzip stream and the length it inflates to. */
  datatype Row = Row(gz: Bytes, raw: nat)

  /** `whole` says that the body was written in full under its announced length. */
  datatype Response = Ok(length: nat, body: Bytes, whole: bool) | TooLarge | Unavailable | ServerError | Gone

  /** What a request does at the gates, in order. */
  datatype Ev = AcquireList | ReleaseList | AcquireHit | ReleaseHit | RunChild(complete: bool) | Stream(hit: bool)

  // ------------------------------------------------------------------------------
  // Gate discipline
  // ------------------------------------------------------------------------------

  datatype Held = Held(list: bool, hit: bool)

  const IDLE := Held(false, false)

  /** The slots held after an event, or nothing when the event breaks the discipline. */
  function After(h: Held, e: Ev): Option<Held>
  {
    match e
    case AcquireList => if h == IDLE then Some(Held(true, false)) else None
    case ReleaseList => if h.list then Some(h.(list := false)) else None
    case AcquireHit => if h == IDLE then Some(Held(false, true)) else None
    case ReleaseHit => if h.hit then Some(h.(hit := false)) else None
    case RunChild(_) => if h == Held(true, false) then Some(h) else None
    case Stream(hit) => if h == Held(false, hit) then Some(h) else None
  }

  function Replay(h: Held, trace: seq<Ev>): Option<Held>
  {
    if trace == [] then Some(h)
    else
      var before := Replay(h, trace[..|trace| - 1]);
      if before.None? then None else After(before.value, trace[|trace| - 1])
  }

  function Count(trace: seq<Ev>, e: Ev): nat
  {
    if trace == [] then 0
    else Count(trace[..|trace| - 1], e) + if trace[|trace| - 1] == e then 1 else 0
  }

  lemma ReplayNext(h: Held, trace: seq<Ev>, e: Ev)
    ensures Replay(h, trace + [e]) ==
            if Replay(h, trace).None? then None else After(Replay(h, trace).value, e)
  {
    assert (trace + [e])[..|trace|] == trace;
  }

  lemma CountNext(trace: seq<Ev>, e: Ev, x: Ev)
    ensures Count(trace + [e], x) == Count(trace, x) + if e == x then 1 else 0
  {
    assert (trace + [e])[..|trace|] == trace;
  }

  /** Nobody ever holds a listing slot and a hit slot together, or streams while holding a listing slot. */
  lemma {:induction false} DisciplineMeans(trace: seq<Ev>, k: nat)
    requires Replay(IDLE, trace).Some? && k < |trace|
    ensures Replay(IDLE, trace[..k]).Some?
    ensures var h := Replay(IDLE, trace[..k]).value;
            && !(h.list && h.hit)
            && (trace[k].Stream? ==> !h.list)
            && (trace[k].RunChild? ==> h.list)
            && (trace[k].ReleaseList? ==> h.list) && (trace[k].ReleaseHit? ==> h.hit)
    decreases |trace|
  {
    var init := trace[..|trace| - 1];
    if k < |init| {
      DisciplineMeans(init, k);
      assert init[..k] == trace[..k];
    } else {
      assert trace[..k] == init;
      NeverBoth(init);
    }
  }

  lemma {:induction false} NeverBoth(trace: seq<Ev>)
    requires Replay(IDLE, trace).Some?
    ensures !(Replay(IDLE, trace).value.list && Replay(IDLE, trace).value.hit)
  {
    if trace != [] {
      NeverBoth(trace[..|trace| - 1]);
    }
  }

  /** One request's slots, its trace so far, and the release functions that free a slot once. */
  class Request {
    var held: Held
    var trace: seq<Ev>

    ghost predicate Valid()
      reads this
    {
      Replay(IDLE, trace) == Some(held)
    }

    constructor ()
      ensures Valid() && held == IDLE && trace == []
    {
      held, trace := IDLE, [];
    }

    method Do(e: Ev)
      requires Valid() && After(held, e).Some?
      modifies this
      ensures Valid() && Some(held) == After(old(held), e) && trace == old(trace) + [e]
    {
      ReplayNext(IDLE, trace, e);
      held, trace := After(held, e).value, trace + [e];
    }

    /** The release function of a listing slot: explicit and deferred calls together free it once. */
    method ReleaseList()
      requires Valid()
      modifies this
      ensures Valid() && held == old(held).(list := false)
      ensures trace == if old(held).list then old(trace) + [Ev.ReleaseList] else old(trace)
    {
      if held.list {
        Do(Ev.ReleaseList);
      }
    }
  }

  // ------------------------------------------------------------------------------
  // Serving
  // ------------------------------------------------------------------------------

  /** How a bounded wait at a gate ends. */
  datatype GateAnswer = Admitted | TimedOut | Left

  /** The row of a listing: the compressed output and its length. */
  function RowOf(codec: Codec, output: Bytes): Row
  {
    Row(codec.deflate(output), |output|)
  }

  /** What inflating a row yields before it fails or ends. */
  function StreamOf(codec: Codec, row: Row): Bytes
  {
    match codec.inflate(row.gz)
    case BadHeader => []
    case Damaged(prefix) => prefix
    case Whole(x) => x
  }

  /** The row inflates to exactly as many bytes as it announces. */
  predicate Intact(codec: Codec, row: Row)
  {
    codec.inflate(row.gz).Whole? && |codec.inflate(row.gz).raw| == row.raw
  }

  function Least(a: nat, b: nat): nat
  {
    if a <= b then a else b
  }

  /**
   The answer to a client who takes `reaches` bytes before hanging up: under the announced
   length, the bytes the row yields as far as they get; whole exactly when the row is intact
   and the client stays.
   */
  predicate Delivers(codec: Codec, row: Row, reaches: nat, resp: Response)
  {
    && resp.Ok? && resp.length == row.raw
    && resp.body == StreamOf(codec, row)[..Least(|StreamOf(codec, row)|, Least(row.raw, reaches))]
    && (resp.whole <==> Intact(codec, row) && row.raw <= reaches)
  }

  /** Inflates a stream to the client under an exact length; without a header nothing is sent. */
  method WriteListing(codec: Codec, row: Row, reaches: nat) returns (started: bool, ok: bool, resp: Response)
    ensures started <==> !codec.inflate(row.gz).BadHeader?
    ensures started ==> Delivers(codec, row, reaches, resp) && ok == resp.whole
    ensures !started ==> !ok
  {
    var stream: Bytes;
    match codec.inflate(row.gz) {
      case BadHeader => return false, false, Gone;
      case Damaged(prefix) => stream := prefix;
      case Whole(x) => stream := x;
    }
    var sent := Least(|stream|, Least(row.raw, reaches));
    ok := codec.inflate(row.gz).Whole? && |stream| == row.raw && sent == |stream|;
    return true, ok, Ok(row.raw, stream[..sent], ok);
  }

  /** What one attempt to answer from the cache meets: whether the row is there, the hit gate, the row read, the client. */
  datatype Look = Look(has: bool, gate: GateAnswer, row: Option<Row>, reaches: nat)

  /** The attempt gets to stream a row. */
  predicate Opens(cacheable: bool, l: Look)
  {
    cacheable && l.has && l.gate.Admitted? && l.row.Some?
  }

  /** Streaming starts, so that the request is finished with it. */
  predicate Streams(codec: Codec, cacheable: bool, l: Look)
  {
    Opens(cacheable, l) && !codec.inflate(l.row.value.gz).BadHeader?
  }

  predicate Refuses(cacheable: bool, l: Look)
  {
    cacheable && l.has && !l.gate.Admitted?
  }

  function RefusalOf(a: GateAnswer): Response
  {
    if a.TimedOut? then Unavailable else Gone
  }

  /**
   Answers from the cache when it can. A row that could not be delivered in full, because it is
   damaged or because the client left, is dropped.
   */
  method ServeCached(q: Request, codec: Codec, cacheable: bool, l: Look)
    returns (done: bool, resp: Response, dropped: bool)
    requires q.Valid() && q.held == IDLE
    modifies q
    ensures q.Valid() && q.held == IDLE
    ensures Count(q.trace, AcquireList) == Count(old(q.trace), AcquireList)
    ensures forall b :: Count(q.trace, RunChild(b)) == Count(old(q.trace), RunChild(b))
    ensures done <==> Streams(codec, cacheable, l) || Refuses(cacheable, l)
    ensures Streams(codec, cacheable, l) ==> Delivers(codec, l.row.value, l.reaches, resp)
    ensures Refuses(cacheable, l) ==> resp == RefusalOf(l.gate)
    ensures dropped <==> Fails(codec, cacheable, l)
  {
    hide Count, Replay, StreamOf;
    done, resp, dropped := false, Gone, false;
    if !cacheable || !l.has {
      return;
    }
    if !l.gate.Admitted? {
      return true, RefusalOf(l.gate), false;
    }
    CountOther(q.trace, AcquireHit);
    q.Do(AcquireHit);
    if l.row.Some? {
      CountOther(q.trace, Stream(true));
      q.Do(Stream(true));
      var ok;
      done, ok, resp := WriteListing(codec, l.row.value, l.reaches);
      dropped := !ok;
    }
    CountOther(q.trace, ReleaseHit);
    q.Do(ReleaseHit);
  }

  lemma CountOther(trace: seq<Ev>, e: Ev)
    requires !e.AcquireList? && !e.RunChild?
    ensures Count(trace + [e], AcquireList) == Count(trace, AcquireList)
    ensures forall b :: Count(trace + [e], RunChild(b)) == Count(trace, RunChild(b))
  {
    CountNext(trace, e, AcquireList);
    CountNext(trace, e, RunChild(true));
    CountNext(trace, e, RunChild(false));
  }

  /**
   Everything a request meets. `first` is the look before the gate; `gate(i)` is the i-th wait
   for a listing slot, `again(i)` whether the row is seen right after it, and `looks(i)` the look
   that follows. `script`, `io` and `putOk` are the child, the file system and the database,
   `reaches` is how much of a listing just made the client takes.
   */
  datatype Env = Env(cacheable: bool, first: Look, gate: nat -> GateAnswer, again: nat -> bool, looks: nat -> Look,
                     ceilingMarked: bool, vendOk: bool, script: Script, io: nat -> bool, putOk: bool, reaches: nat)

  /** The spool's two bounds and the row cap. */
  datatype Limits = Limits(memMax: nat, fileMax: int, rowMax: int)

  /** After the i-th wait the request looks at the cache again. */
  predicate LooksAgain(e: Env, i: nat)
  {
    i < 3 && e.gate(i).Admitted? && e.cacheable && e.again(i)
  }

  /** The request gets to its j-th wait: the looks after all earlier waits found nothing. */
  ghost predicate WaitsAt(codec: Codec, e: Env, j: nat)
  {
    && !Streams(codec, e.cacheable, e.first) && !Refuses(e.cacheable, e.first)
    && forall i :: 0 <= i < j ==>
                     LooksAgain(e, i) && !Streams(codec, true, e.looks(i)) && !Refuses(true, e.looks(i))
  }

  /** One of the looks the request takes. */
  ghost predicate IsLook(codec: Codec, e: Env, l: Look)
  {
    l == e.first || exists j :: 0 <= j && WaitsAt(codec, e, j) && LooksAgain(e, j) && l == e.looks(j)
  }

  /** One of the waits the request makes, at either gate, ends that way. */
  ghost predicate RefusedWith(codec: Codec, e: Env, a: GateAnswer)
  {
    || (exists l :: IsLook(codec, e, l) && Refuses(e.cacheable, l) && l.gate == a)
    || (!a.Admitted? && exists j :: 0 <= j && WaitsAt(codec, e, j) && e.gate(j) == a)
  }

  /** A row was opened and could not be delivered in full. */
  predicate Fails(codec: Codec, cacheable: bool, l: Look)
  {
    Opens(cacheable, l) && !(Intact(codec, l.row.value) && l.row.value.raw <= l.reaches)
  }

  ghost predicate SomeLookFails(codec: Codec, e: Env)
  {
    exists l :: IsLook(codec, e, l) && Fails(codec, e.cacheable, l)
  }

  ghost predicate FromLook(codec: Codec, e: Env, resp: Response)
  {
    exists l :: IsLook(codec, e, l) && Opens(e.cacheable, l) && Delivers(codec, l.row.value, l.reaches, resp)
  }

  /** What a look that was taken means for the request. */
  lemma LookTaken(codec: Codec, e: Env, j: nat)
    requires WaitsAt(codec, e, j) && LooksAgain(e, j)
    ensures var l := e.looks(j);
            && IsLook(codec, e, l)
            && (Refuses(e.cacheable, l) ==> !l.gate.Admitted? && RefusedWith(codec, e, l.gate) && !Streams(codec, e.cacheable, l))
            && (Fails(codec, e.cacheable, l) ==> SomeLookFails(codec, e))
            && (!Streams(codec, e.cacheable, l) && !Refuses(e.cacheable, l) ==> WaitsAt(codec, e, j + 1))
            && forall resp :: Streams(codec, e.cacheable, l) && Delivers(codec, l.row.value, l.reaches, resp) ==>
                                resp.Ok? && FromLook(codec, e, resp)
  {
    hide StreamOf, Intact;
    assert IsLook(codec, e, e.looks(j));
  }

  lemma WaitRefused(codec: Codec, e: Env, j: nat)
    requires WaitsAt(codec, e, j) && !e.gate(j).Admitted?
    ensures RefusedWith(codec, e, e.gate(j))
  {
  }

  /** The look after the j-th wait, which the request takes, gets to stream a row. */
  ghost predicate HitAt(codec: Codec, e: Env, j: nat)
  {
    WaitsAt(codec, e, j) && LooksAgain(e, j) && Streams(codec, true, e.looks(j))
  }

  /** No look other than the one after the last wait streams a row. */
  lemma OnlyHit(codec: Codec, e: Env, a: nat)
    requires WaitsAt(codec, e, a)
    ensures !LooksAgain(e, a) || Refuses(true, e.looks(a)) ==> forall j: nat :: !HitAt(codec, e, j)
    ensures Streams(codec, true, e.looks(a)) ==> forall j: nat :: HitAt(codec, e, j) ==> j == a
  {
    hide Streams;
    forall j: nat | HitAt(codec, e, j)
      ensures a <= j && (a < j ==> LooksAgain(e, a) && !Refuses(true, e.looks(a)) && !Streams(codec, true, e.looks(a)))
    {
    }
    RefusedStreamsNothing(codec, e.looks(a));
  }

  /** A wait is granted and no row is seen after it: the request gets to list the revision itself. */
  ghost predicate Misses(codec: Codec, e: Env)
  {
    exists j: nat :: MissesAt(codec, e, j)
  }

  ghost predicate MissesAt(codec: Codec, e: Env, j: nat)
  {
    WaitsAt(codec, e, j) && e.gate(j).Admitted? && !LooksAgain(e, j)
  }

  /** The wait or the look after it ends the request: then it makes no other that could. */
  lemma EndsHere(codec: Codec, e: Env, j: nat)
    requires WaitsAt(codec, e, j)
    ensures !e.gate(j).Admitted? ==>
              !Misses(codec, e) && forall a: GateAnswer :: !a.Admitted? && RefusedWith(codec, e, a) ==> a == e.gate(j)
    ensures MissesAt(codec, e, j) ==> forall a: GateAnswer :: !a.Admitted? ==> !RefusedWith(codec, e, a)
    ensures LooksAgain(e, j) && Streams(codec, true, e.looks(j)) ==>
              !Misses(codec, e) && forall a: GateAnswer :: !a.Admitted? ==> !RefusedWith(codec, e, a)
    ensures LooksAgain(e, j) && Refuses(true, e.looks(j)) ==>
              !Misses(codec, e) && forall a: GateAnswer :: !a.Admitted? && RefusedWith(codec, e, a) ==> a == e.looks(j).gate
  {
    RefusedStreamsNothing(codec, e.looks(j));
    hide Streams, Refuses;
    forall i: nat | WaitsAt(codec, e, i)
      ensures i <= j || (LooksAgain(e, j) && !Streams(codec, true, e.looks(j)) && !Refuses(true, e.looks(j)))
      ensures i < j ==> LooksAgain(e, i) && !Streams(codec, true, e.looks(i)) && !Refuses(true, e.looks(i))
    {
    }
  }

  /** Of the looks a request takes, those that failed were taken before this wait, or the one after it. */
  lemma FailedBefore(codec: Codec, e: Env, j: nat)
    requires WaitsAt(codec, e, j)
    ensures !LooksAgain(e, j) || Streams(codec, true, e.looks(j)) || Refuses(true, e.looks(j)) ==>
              (SomeLookFails(codec, e) <==>
                 || Fails(codec, e.cacheable, e.first)
                 || (exists i: nat :: i < j && Fails(codec, e.cacheable, e.looks(i)))
                 || (LooksAgain(e, j) && Fails(codec, e.cacheable, e.looks(j))))
  {
    hide Streams, Refuses, Fails;
    forall i: nat | WaitsAt(codec, e, i)
      ensures i <= j || (LooksAgain(e, j) && !Streams(codec, true, e.looks(j)) && !Refuses(true, e.looks(j)))
    {
    }
    forall i: nat | i < j
      ensures IsLook(codec, e, e.looks(i))
    {
      assert WaitsAt(codec, e, i) && LooksAgain(e, i);
    }
    assert LooksAgain(e, j) ==> IsLook(codec, e, e.looks(j));
    assert IsLook(codec, e, e.first);
  }

  /** A first look that finishes the request leaves no waits. */
  lemma NoWaits(codec: Codec, e: Env)
    requires Streams(codec, e.cacheable, e.first) || Refuses(e.cacheable, e.first)
    ensures !Misses(codec, e)
    ensures forall a: GateAnswer :: !a.Admitted? && RefusedWith(codec, e, a) ==> Refuses(e.cacheable, e.first) && a == e.first.gate
    ensures SomeLookFails(codec, e) <==> Fails(codec, e.cacheable, e.first)
  {
    hide Streams, Refuses, Fails;
    assert IsLook(codec, e, e.first);
  }

  /** Every request meets one of these: a hit, a refusal, or a miss. */
  lemma OneOfThree(codec: Codec, e: Env)
    ensures || Streams(codec, e.cacheable, e.first) || (exists j: nat :: HitAt(codec, e, j))
            || RefusedWith(codec, e, TimedOut) || RefusedWith(codec, e, Left) || Misses(codec, e)
  {
    FirstLook(codec, e);
    if WaitsAt(codec, e, 0) {
      OneOfThreeFrom(codec, e, 0);
    }
  }

  lemma {:induction false} OneOfThreeFrom(codec: Codec, e: Env, j: nat)
    requires j <= 3 && WaitsAt(codec, e, j)
    ensures || (exists i: nat :: HitAt(codec, e, i))
            || RefusedWith(codec, e, TimedOut) || RefusedWith(codec, e, Left) || Misses(codec, e)
    decreases 3 - j
  {
    hide Streams, Refuses, WaitsAt, RefusedWith;
    if !e.gate(j).Admitted? {
      WaitRefused(codec, e, j);
    } else if LooksAgain(e, j) {
      LookTaken(codec, e, j);
      if Streams(codec, true, e.looks(j)) {
        assert HitAt(codec, e, j);
      } else if !Refuses(true, e.looks(j)) {
        OneOfThreeFrom(codec, e, j + 1);
      }
    } else {
      assert MissesAt(codec, e, j);
    }
  }

  lemma RefusedStreamsNothing(codec: Codec, l: Look)
    ensures Refuses(true, l) ==> !Streams(codec, true, l)
  {
  }

  /** A first look that finishes the request leaves no later ones. */
  lemma FirstDecides(codec: Codec, e: Env)
    ensures Streams(codec, e.cacheable, e.first) || Refuses(e.cacheable, e.first) ==> forall j: nat :: !HitAt(codec, e, j)
  {
  }

  /**
   Waits for a listing slot, and after each wait looks again whether another request has
   cached the listing meanwhile; a hit is served only after the slot is given back. It ends
   with the slot in hand exactly when a wait was granted and no row was seen, or at the fourth.
   */
  method AcquireOrServe(q: Request, codec: Codec, e: Env) returns (finished: bool, resp: Response, drops: nat)
    requires q.Valid() && q.held == IDLE && Count(q.trace, AcquireList) == 0
    requires WaitsAt(codec, e, 0)
    modifies q
    ensures q.Valid() && q.held == if finished then IDLE else Held(true, false)
    ensures Count(q.trace, AcquireList) <= 4
    ensures forall b :: Count(q.trace, RunChild(b)) == Count(old(q.trace), RunChild(b))
    ensures finished && resp.Ok? ==> FromLook(codec, e, resp)
    ensures finished && !resp.Ok? ==> exists a: GateAnswer :: !a.Admitted? && RefusedWith(codec, e, a) && resp == RefusalOf(a)
    ensures !finished ==> var j := Count(q.trace, AcquireList) - 1;
                          && 0 <= j <= 3 && WaitsAt(codec, e, j) && e.gate(j).Admitted?
                          && (j == 3 || !e.cacheable || !e.again(j))
    ensures forall j: nat :: HitAt(codec, e, j) ==>
                               finished && Delivers(codec, e.looks(j).row.value, e.looks(j).reaches, resp)
    ensures finished <==> !Misses(codec, e)
    ensures forall a: GateAnswer :: !a.Admitted? && RefusedWith(codec, e, a) ==> finished && resp == RefusalOf(a)
    ensures SomeLookFails(codec, e) <==> drops > 0 || Fails(codec, e.cacheable, e.first)
  {
    hide HitAt, Misses, Count, Replay, Delivers, WaitsAt, IsLook, RefusedWith, FromLook, Streams, Fails, SomeLookFails, Refuses;
    var attempt := 0;
    drops := 0;
    while true
      invariant 0 <= attempt <= 3 && WaitsAt(codec, e, attempt)
      invariant q.Valid() && q.held == IDLE
      invariant Count(q.trace, AcquireList) == attempt
      invariant forall b :: Count(q.trace, RunChild(b)) == Count(old(q.trace), RunChild(b))
      invariant drops > 0 <==> exists i: nat :: i < attempt && Fails(codec, e.cacheable, e.looks(i))
      decreases 3 - attempt
    {
      OnlyHit(codec, e, attempt);
      EndsHere(codec, e, attempt);
      FailedBefore(codec, e, attempt);
      if !e.gate(attempt).Admitted? {
        WaitRefused(codec, e, attempt);
        return true, RefusalOf(e.gate(attempt)), drops;
      }
      CountAcquire(q.trace);
      q.Do(AcquireList);
      if attempt < 3 && e.cacheable && e.again(attempt) {
        CountOther(q.trace, Ev.ReleaseList);
        q.ReleaseList();
        var done, dropped;
        LookTaken(codec, e, attempt);
        done, resp, dropped := ServeCached(q, codec, e.cacheable, e.looks(attempt));
        if dropped {
          drops := drops + 1;
        }
        if done {
          return true, resp, drops;
        }
        attempt := attempt + 1;
        continue;
      }
      MissFound(codec, e, attempt);
      return false, Gone, drops;
    }
  }

  lemma MissFound(codec: Codec, e: Env, j: nat)
    requires WaitsAt(codec, e, j) && e.gate(j).Admitted? && !LooksAgain(e, j)
    ensures MissesAt(codec, e, j) && Misses(codec, e)
  {
    hide WaitsAt;
    assert MissesAt(codec, e, j);
  }

  lemma CountAcquire(trace: seq<Ev>)
    ensures Count(trace + [AcquireList], AcquireList) == Count(trace, AcquireList) + 1
    ensures forall b :: Count(trace + [AcquireList], RunChild(b)) == Count(trace, RunChild(b))
  {
    CountNext(trace, AcquireList, AcquireList);
    CountNext(trace, AcquireList, RunChild(true));
    CountNext(trace, AcquireList, RunChild(false));
  }

  /** How many times the request ran the child. */
  function Runs(trace: seq<Ev>): nat
  {
    Count(trace, RunChild(true)) + Count(trace, RunChild(false))
  }

  /** What a request leaves in the two tables. */
  datatype Kept = Nothing | Stored(row: Row) | MarkedCeiling | MarkedRowCap(gz: nat)

  /** Caches a complete listing unless it exceeds the row cap, which is recorded instead; a put may fail. */
  method StoreListing(cacheable: bool, row: Row, rowMax: int, putOk: bool) returns (kept: Kept)
    ensures kept.MarkedRowCap? <==> cacheable && 0 < rowMax < |row.gz|
    ensures kept.MarkedRowCap? ==> kept.gz == |row.gz|
    ensures kept.Stored? <==> cacheable && !(0 < rowMax < |row.gz|) && putOk
    ensures kept.Stored? ==> kept.row == row
    ensures !kept.MarkedCeiling?
  {
    if !cacheable {
      return Nothing;
    }
    if 0 < rowMax < |row.gz| {
      return MarkedRowCap(|row.gz|);
    }
    return if putOk then Stored(row) else Nothing;
  }

  /** The revision is immutable: a run that ends well printed its listing, and gzip lost nothing of it. */
  predicate Prints(codec: Codec, script: Script, output: Bytes)
  {
    Faithful(codec, script) && (script.exitOk ==> RawOf(script.chunks) == output)
  }

  /** The child can complete: it ends well and its stream can be spooled. */
  predicate Completes(codec: Codec, script: Script, lim: Limits)
  {
    script.exitOk && Spoolable(lim.memMax, lim.fileMax, StreamSize(codec, script))
  }

  /**
   What is kept after a request: a row holds the compressed whole output and its length and is
   within the row cap, a mark is left exactly for what it says.
   */
  ghost predicate KeptRight(codec: Codec, e: Env, lim: Limits, output: Bytes, trace: seq<Ev>, kept: Kept)
  {
    var row := RowOf(codec, output);
    if Count(trace, RunChild(true)) > 0 && e.cacheable then
      if 0 < lim.rowMax < |row.gz| then kept == MarkedRowCap(|row.gz|)
      else kept == if e.putOk then Stored(row) else Nothing
    else
      var crossed := e.cacheable && Count(trace, RunChild(false)) > 0
                     && !Spoolable(lim.memMax, lim.fileMax, EarlySize(e.script));
      && (kept == Nothing || (kept == MarkedCeiling && crossed))
      && (AllWell(e.io) && crossed ==> kept == MarkedCeiling)
  }

  /** Where an answer that carries a body comes from: a row that was read, or the child that was run. */
  ghost predicate Sourced(codec: Codec, e: Env, output: Bytes, trace: seq<Ev>, resp: Response)
  {
    resp.Ok? ==>
      FromLook(codec, e, resp) ||
      (Count(trace, RunChild(true)) > 0 && Delivers(codec, RowOf(codec, output), e.reaches, resp))
  }

  /** Why a request is turned away. */
  ghost predicate Excused(codec: Codec, e: Env, lim: Limits, resp: Response)
  {
    match resp
    case Ok(_, _, _) => true
    case Gone => RefusedWith(codec, e, Left)
    case Unavailable => RefusedWith(codec, e, TimedOut) || !AllWell(e.io) || CrossesLate(codec, e.script, lim.memMax, lim.fileMax)
    case TooLarge => (e.cacheable && e.ceilingMarked) || !Spoolable(lim.memMax, lim.fileMax, EarlySize(e.script))
    case ServerError => !e.vendOk || !e.script.exitOk
  }

  /** What a request that lists the revision itself answers when the file system works: exit and sizes decide. */
  ghost predicate AnswersMiss(codec: Codec, e: Env, lim: Limits, output: Bytes, resp: Response)
  {
    if Completes(codec, e.script, lim) then Delivers(codec, RowOf(codec, output), e.reaches, resp)
    else if !Spoolable(lim.memMax, lim.fileMax, EarlySize(e.script)) then resp == TooLarge
    else if e.script.exitOk then resp == Unavailable
    else resp == ServerError
  }

  /**
   Answers a listing request. It makes no assumption about the rows it reads: what they hold is
   the business of whoever stored them.
   */
  method ServeSnapshotFiles(q: Request, codec: Codec, e: Env, lim: Limits, ghost output: Bytes)
    returns (resp: Response, kept: Kept, drops: nat)
    requires q.Valid() && q.held == IDLE && q.trace == []
    requires codec.Valid() && Prints(codec, e.script, output)
    modifies q
    // what is served
    ensures Sourced(codec, e, output, q.trace, resp) && Excused(codec, e, lim, resp)
    ensures Streams(codec, e.cacheable, e.first) ==>
              Delivers(codec, e.first.row.value, e.first.reaches, resp) && Runs(q.trace) == 0
    ensures forall j: nat :: HitAt(codec, e, j) ==>
                               Delivers(codec, e.looks(j).row.value, e.looks(j).reaches, resp) && Runs(q.trace) == 0
    ensures forall a: GateAnswer :: !a.Admitted? && RefusedWith(codec, e, a) ==> resp == RefusalOf(a) && Runs(q.trace) == 0
    ensures Count(q.trace, RunChild(true)) > 0 ==> Delivers(codec, RowOf(codec, output), e.reaches, resp)
    ensures Count(q.trace, RunChild(false)) > 0 ==> !resp.Ok? && !kept.Stored?
    // what a miss comes to
    ensures Misses(codec, e) && e.cacheable && e.ceilingMarked ==> resp == TooLarge && Runs(q.trace) == 0
    ensures Misses(codec, e) && !(e.cacheable && e.ceilingMarked) && !e.vendOk ==> resp == ServerError && Runs(q.trace) == 0
    ensures Misses(codec, e) && !(e.cacheable && e.ceilingMarked) && e.vendOk ==>
              Runs(q.trace) == 1 && (AllWell(e.io) ==> AnswersMiss(codec, e, lim, output, resp))
    // what is kept
    ensures KeptRight(codec, e, lim, output, q.trace, kept)
    ensures drops > 0 <==> SomeLookFails(codec, e)
    // slots
    ensures q.Valid() && q.held == IDLE
    ensures Count(q.trace, AcquireList) <= 4 && Runs(q.trace) <= 1
  {
    hide HitAt, Misses, AnswersMiss, Delivers, CrossesLate, Spoolable, IsLook, RefusedWith, FromLook, Streams, WaitsAt,
         KeptRight, Fails, SomeLookFails;
    kept, drops := Nothing, 0;
    NothingKept(codec, e, lim, output);
    FirstLook(codec, e);
    FirstDecides(codec, e);
    var done, dropped;
    done, resp, dropped := ServeCached(q, codec, e.cacheable, e.first);
    if dropped {
      drops := 1;
    }
    if done {
      NoWaits(codec, e);
      return;
    }
    var more;
    done, resp, more := AcquireOrServe(q, codec, e);
    drops := drops + more;
    if done {
      return;
    }
    if e.cacheable && e.ceilingMarked {
      CountOther(q.trace, Ev.ReleaseList);
      q.ReleaseList();
      return TooLarge, Nothing, drops;
    }
    if !e.vendOk {
      CountOther(q.trace, Ev.ReleaseList);
      q.ReleaseList();
      return ServerError, Nothing, drops;
    }
    resp, kept := ServeMiss(q, codec, e, lim, output);
    q.ReleaseList();
  }

  lemma NothingKept(codec: Codec, e: Env, lim: Limits, output: Bytes)
    ensures forall trace :: Count(trace, RunChild(true)) == 0 && Count(trace, RunChild(false)) == 0 ==>
                              KeptRight(codec, e, lim, output, trace, Nothing)
  {
  }

  /** What the look before the gate means for the request. */
  lemma FirstLook(codec: Codec, e: Env)
    ensures var l := e.first;
            && IsLook(codec, e, l)
            && (Refuses(e.cacheable, l) ==> !l.gate.Admitted? && RefusedWith(codec, e, l.gate) && !Streams(codec, e.cacheable, l))
            && (Fails(codec, e.cacheable, l) ==> SomeLookFails(codec, e))
            && (!Streams(codec, e.cacheable, l) && !Refuses(e.cacheable, l) ==> WaitsAt(codec, e, 0))
            && forall resp :: Streams(codec, e.cacheable, l) && Delivers(codec, l.row.value, l.reaches, resp) ==>
                                resp.Ok? && FromLook(codec, e, resp)
  {
    hide StreamOf, Intact;
    assert IsLook(codec, e, e.first);
  }

  /** Runs the child while holding the listing slot, stores what it completed, and streams after giving the slot back. */
  method ServeMiss(q: Request, codec: Codec, e: Env, lim: Limits, ghost output: Bytes) returns (resp: Response, kept: Kept)
    requires q.Valid() && q.held == Held(true, false) && Runs(q.trace) == 0
    requires codec.Valid() && Prints(codec, e.script, output)
    modifies q
    ensures q.Valid() && q.held == IDLE
    ensures Count(q.trace, AcquireList) == Count(old(q.trace), AcquireList) && Runs(q.trace) == 1
    ensures Count(q.trace, RunChild(true)) > 0 ==> Delivers(codec, RowOf(codec, output), e.reaches, resp)
    ensures Count(q.trace, RunChild(false)) > 0 ==> !resp.Ok? && !kept.Stored?
    ensures AllWell(e.io) ==>
              (Count(q.trace, RunChild(true)) > 0 <==> Completes(codec, e.script, lim)) && AnswersMiss(codec, e, lim, output, resp)
    ensures KeptRight(codec, e, lim, output, q.trace, kept)
    ensures !resp.Ok? ==> !resp.Gone? && Excused(codec, e, lim, resp)
  {
    hide Count, Replay, Delivers, Ran, KeptRight, Excused, Completes;
    var run := RunListFiles(codec, e.script, lim.memMax, lim.fileMax, e.io);
    CountRun(q.trace, run.Complete?);
    q.Do(RunChild(run.Complete?));
    RunMeans(codec, e, lim, output, run, q.trace);
    CountOther(q.trace, Ev.ReleaseList);
    if run.Broken? {
      q.ReleaseList();
      kept := if run.fault.CeilingFault? && e.cacheable then MarkedCeiling else Nothing;
      KeptWithoutRow(codec, e, lim, output, q.trace, kept);
      match run.fault {
        case CeilingFault => return TooLarge, kept;
        case IoFault => return Unavailable, kept;
        case NoFault => return ServerError, kept;
      }
    }
    var row := Row(run.gz, run.raw);
    kept := StoreListing(e.cacheable, row, lim.rowMax, e.putOk);
    q.ReleaseList();
    CountOther(q.trace, Stream(false));
    q.Do(Stream(false));
    KeptWithRow(codec, e, lim, output, q.trace, kept);
    var started, ok;
    started, ok, resp := WriteListing(codec, row, e.reaches);
    OkWhenDelivered(codec, row, e.reaches, resp);
  }

  /** What the result of the child tells. */
  lemma RunMeans(codec: Codec, e: Env, lim: Limits, output: Bytes, run: RunResult, trace: seq<Ev>)
    requires codec.Valid() && Prints(codec, e.script, output)
    requires Ran(codec, e.script, lim.memMax, lim.fileMax, e.io, run)
    ensures run.Complete? ==> Row(run.gz, run.raw) == RowOf(codec, output) && codec.inflate(run.gz) == Whole(output)
    ensures AllWell(e.io) ==> (run.Complete? <==> Completes(codec, e.script, lim))
    ensures AllWell(e.io) && !Spoolable(lim.memMax, lim.fileMax, EarlySize(e.script)) ==>
              run.Broken? && run.fault.CeilingFault?
    ensures AllWell(e.io) && run.Broken? ==>
              AnswersMiss(codec, e, lim, output,
                          match run.fault case CeilingFault => TooLarge case IoFault => Unavailable case NoFault => ServerError)
    ensures run.Broken? ==>
              match run.fault
              case CeilingFault =>
                !Spoolable(lim.memMax, lim.fileMax, EarlySize(e.script)) && Excused(codec, e, lim, TooLarge)
              case IoFault => Excused(codec, e, lim, Unavailable)
              case NoFault => Excused(codec, e, lim, ServerError)
  {
    hide Tail;
    if AllWell(e.io) {
      RunDecides(codec, e.script, lim.memMax, lim.fileMax, e.io, run);
    }
    assert codec.inflate(codec.deflate(output)) == Whole(output);
    hide Spoolable, RefusedWith;
  }

  lemma KeptWithoutRow(codec: Codec, e: Env, lim: Limits, output: Bytes, trace: seq<Ev>, kept: Kept)
    requires Count(trace, RunChild(true)) == 0 && Count(trace, RunChild(false)) > 0
    requires var crossed := e.cacheable && !Spoolable(lim.memMax, lim.fileMax, EarlySize(e.script));
             && (kept == Nothing || (kept == MarkedCeiling && crossed))
             && (AllWell(e.io) && crossed ==> kept == MarkedCeiling)
    ensures KeptRight(codec, e, lim, output, trace, kept)
  {
    hide Spoolable;
  }

  lemma KeptWithRow(codec: Codec, e: Env, lim: Limits, output: Bytes, trace: seq<Ev>, kept: Kept)
    requires Count(trace, RunChild(true)) > 0
    requires var row := RowOf(codec, output);
             && (kept.MarkedRowCap? <==> e.cacheable && 0 < lim.rowMax < |row.gz|)
             && (kept.MarkedRowCap? ==> kept.gz == |row.gz|)
             && (kept.Stored? <==> e.cacheable && !(0 < lim.rowMax < |row.gz|) && e.putOk)
             && (kept.Stored? ==> kept.row == row)
             && !kept.MarkedCeiling?
    ensures KeptRight(codec, e, lim, output, trace, kept)
  {
  }

  lemma OkWhenDelivered(codec: Codec, row: Row, reaches: nat, resp: Response)
    requires Delivers(codec, row, reaches, resp)
    ensures resp.Ok?
  {
  }

  lemma CountRun(trace: seq<Ev>, b: bool)
    requires Runs(trace) == 0
    ensures Count(trace + [RunChild(b)], AcquireList) == Count(trace, AcquireList)
    ensures Count(trace + [RunChild(b)], RunChild(b)) == 1 && Count(trace + [RunChild(b)], RunChild(!b)) == 0
  {
    CountNext(trace, RunChild(b), AcquireList);
    CountNext(trace, RunChild(b), RunChild(true));
    CountNext(trace, RunChild(b), RunChild(false));
  }

  /** An intact row of three bytes and a client who takes one of them: the row is dropped. */
  method HangUpDropsSoundRow() returns (row: Row, l: Look, dropped: bool)
    ensures Intact(Stamp(), row) && l == Look(true, Admitted, Some(row), 1) && dropped
  {
    var output: Bytes := [1, 2, 3];
    row := Row(output + [0], 3);
    assert (output + [0])[..3] == output;
    l := Look(true, Admitted, Some(row), 1);
    var q := new Request();
    var done, resp;
    done, resp, dropped := ServeCached(q, Stamp(), true, l);
  }

  // ------------------------------------------------------------------------------
  // Serving agreement
  // ------------------------------------------------------------------------------

  /** A row of the listing delivers the listing: whole to a client who stays, as far as it gets otherwise. */
  lemma RowDelivers(codec: Codec, output: Bytes, reaches: nat, resp: Response)
    requires codec.Valid() && Delivers(codec, RowOf(codec, output), reaches, resp)
    ensures resp.length == |output| && resp.body == output[..Least(|output|, reaches)]
    ensures resp.whole <==> |output| <= reaches
    ensures |output| <= reaches ==> resp == Ok(|output|, output, true)
  {
    assert codec.inflate(codec.deflate(output)) == Whole(output);
    assert output[..|output|] == output;
  }

  /** Every row the request can read is a row of the listing. */
  ghost predicate SeesListing(codec: Codec, output: Bytes, e: Env)
  {
    forall l :: IsLook(codec, e, l) && l.row.Some? ==> l.row.value == RowOf(codec, output)
  }

  /** Whoever is answered with a body is answered with the listing, from a hit as from a miss. */
  lemma BodiesAgree(codec: Codec, e: Env, output: Bytes, trace: seq<Ev>, resp: Response)
    requires codec.Valid() && Sourced(codec, e, output, trace, resp) && SeesListing(codec, output, e) && resp.Ok?
    ensures resp.length == |output| && resp.body <= output && (resp.whole ==> resp.body == output)
  {
    hide Delivers;
    if FromLook(codec, e, resp) {
      var l :| IsLook(codec, e, l) && Opens(e.cacheable, l) && Delivers(codec, l.row.value, l.reaches, resp);
      RowDelivers(codec, output, l.reaches, resp);
    } else {
      RowDelivers(codec, output, e.reaches, resp);
    }
  }

  /** Nobody is turned away or gives up, and every client stays to the end. */
  ghost predicate Smooth(codec: Codec, e: Env, lim: Limits, output: Bytes)
  {
    && !RefusedWith(codec, e, TimedOut) && !RefusedWith(codec, e, Left) && AllWell(e.io) && e.vendOk && !(e.cacheable && e.ceilingMarked)
    && Completes(codec, e.script, lim) && |output| <= e.reaches
    && forall l :: IsLook(codec, e, l) ==> |output| <= l.reaches
  }

  /** Then the request is answered with the whole listing, whatever the cache holds of it. */
  lemma SmoothRequestIsServed(codec: Codec, e: Env, lim: Limits, output: Bytes, trace: seq<Ev>, resp: Response)
    requires codec.Valid() && Prints(codec, e.script, output) && Smooth(codec, e, lim, output)
    requires SeesListing(codec, output, e) && Sourced(codec, e, output, trace, resp) && Excused(codec, e, lim, resp)
    ensures resp == Ok(|output|, output, true)
  {
    assert EarlySize(e.script) <= StreamSize(codec, e.script);
    assert resp.Ok?;
    hide Delivers, Smooth;
    if FromLook(codec, e, resp) {
      var l :| IsLook(codec, e, l) && Opens(e.cacheable, l) && Delivers(codec, l.row.value, l.reaches, resp);
      assert |output| <= l.reaches by { StaysToTheEnd(codec, e, lim, output, l); }
      RowDelivers(codec, output, l.reaches, resp);
    } else {
      assert |output| <= e.reaches by { StaysToTheEnd(codec, e, lim, output, e.first); }
      RowDelivers(codec, output, e.reaches, resp);
    }
  }

  lemma StaysToTheEnd(codec: Codec, e: Env, lim: Limits, output: Bytes, l: Look)
    requires Smooth(codec, e, lim, output) && IsLook(codec, e, l)
    ensures |output| <= l.reaches && |output| <= e.reaches
  {
  }

  /**
   What happens to the row of one revision: a request or the warmer stores what it kept, and
   evictions, reconciles and drops take it away. `Asked` records the whole request.
   */
  datatype Happening =
    | Asked(e: Env, trace: seq<Ev>, resp: Response, kept: Kept)
    | Warmed(script: Script, io: nat -> bool, run: RunResult)
    | Removed

  /** The row after a happening; a request reads rows that were there at some time before. */
  ghost predicate Happens(codec: Codec, lim: Limits, output: Bytes, past: seq<Option<Row>>, h: Happening, cell: Option<Row>)
    requires past != []
  {
    match h
    case Asked(e, trace, resp, kept) =>
      && (forall l :: IsLook(codec, e, l) && l.row.Some? ==> l.row in past)
      && Sourced(codec, e, output, trace, resp) && Excused(codec, e, lim, resp)
      && KeptRight(codec, e, lim, output, trace, kept)
      && cell == if kept.Stored? then Some(kept.row) else past[|past| - 1]
    case Warmed(script, io, run) =>
      && Prints(codec, script, output) && Ran(codec, script, lim.memMax, lim.fileMax, io, run)
      && (cell == past[|past| - 1] || (run.Complete? && cell == Some(Row(run.gz, run.raw))))
    case Removed => cell == None
  }

  /** The row over time: at first there is none. */
  ghost predicate IsHistory(codec: Codec, lim: Limits, output: Bytes, cells: seq<Option<Row>>, hs: seq<Happening>)
  {
    && |cells| == |hs| + 1 && cells[0] == None
    && forall i :: 0 <= i < |hs| ==> Happens(codec, lim, output, cells[..i + 1], hs[i], cells[i + 1])
  }

  /** At all times the row, if there is one, holds the compressed listing under its length. */
  lemma {:induction false} RowIsTheListing(codec: Codec, lim: Limits, output: Bytes, cells: seq<Option<Row>>,
                                           hs: seq<Happening>, n: nat)
    requires IsHistory(codec, lim, output, cells, hs) && n < |cells|
    ensures cells[n] == None || cells[n] == Some(RowOf(codec, output))
  {
    hide Excused, Sourced, Spoolable, Tail, CrossesLate;
    if n > 0 {
      RowIsTheListing(codec, lim, output, cells, hs, n - 1);
      assert Happens(codec, lim, output, cells[..n], hs[n - 1], cells[n]);
    }
  }

  /**
   Serving agreement: over any history of requests, background listings, evictions and drops,
   every answer with a body is the listing under its length, as far as the client took it; and
   a request that meets no refusal and no failure gets all of it, hit or miss.
   */
  lemma HitsAndMissesAgree(codec: Codec, lim: Limits, output: Bytes, cells: seq<Option<Row>>, hs: seq<Happening>, n: nat)
    requires codec.Valid() && IsHistory(codec, lim, output, cells, hs) && n < |hs| && hs[n].Asked?
    ensures var resp := hs[n].resp;
            resp.Ok? ==> resp.length == |output| && resp.body <= output && (resp.whole ==> resp.body == output)
    ensures Prints(codec, hs[n].e.script, output) && Smooth(codec, hs[n].e, lim, output) ==>
              hs[n].resp == Ok(|output|, output, true)
  {
    var e, trace, resp := hs[n].e, hs[n].trace, hs[n].resp;
    var past := cells[..n + 1];
    assert Happens(codec, lim, output, past, hs[n], cells[n + 1]);
    hide Sourced, Excused, KeptRight, Smooth, Prints;
    forall l | IsLook(codec, e, l) && l.row.Some?
      ensures l.row.value == RowOf(codec, output)
    {
      hide IsLook;
      var i :| 0 <= i < |past| && past[i] == l.row;
      RowIsTheListing(codec, lim, output, cells, hs, i);
    }
    hide IsHistory, Happens;
    if resp.Ok? {
      BodiesAgree(codec, e, output, trace, resp);
    }
    if Prints(codec, e.script, output) && Smooth(codec, e, lim, output) {
      SmoothRequestIsServed(codec, e, lim, output, trace, resp);
    }
  }

  // ------------------------------------------------------------------------------
  // The warmer at the gates
  // ------------------------------------------------------------------------------

  /** What the warmer does: `GateWait` is a wait for a listing slot, `Pause` the sleep between attempts. */
  datatype WarmEv = TakeMaint | GiveMaint | GateWait(bounded: bool) | TakeList | GiveList | List | Pause

  datatype WarmHeld = WarmHeld(maint: bool, list: bool)

  /** Waiting for the gate while holding the maintenance slot must be bounded; pauses hold nothing; listing holds both. */
  function WarmAfter(h: WarmHeld, e: WarmEv): Option<WarmHeld>
  {
    match e
    case TakeMaint => if h == WarmHeld(false, false) then Some(h.(maint := true)) else None
    case GiveMaint => if h.maint && !h.list then Some(h.(maint := false)) else None
    case GateWait(bounded) => if !h.list && (h.maint ==> bounded) then Some(h) else None
    case TakeList => if h == WarmHeld(true, false) then Some(h.(list := true)) else None
    case GiveList => if h.list then Some(h.(list := false)) else None
    case List => if h == WarmHeld(true, true) then Some(h) else None
    case Pause => if h == WarmHeld(false, false) then Some(h) else None
  }

  function WarmReplay(trace: seq<WarmEv>): Option<WarmHeld>
  {
    if trace == [] then Some(WarmHeld(false, false))
    else
      var before := WarmReplay(trace[..|trace| - 1]);
      if before.None? then None else WarmAfter(before.value, trace[|trace| - 1])
  }

  lemma WarmNext(trace: seq<WarmEv>, h: WarmHeld, e: WarmEv)
    requires WarmReplay(trace) == Some(h)
    ensures WarmReplay(trace + [e]) == WarmAfter(h, e)
  {
    assert (trace + [e])[..|trace|] == trace;
  }

  function Listings(trace: seq<WarmEv>): nat
  {
    if trace == [] then 0 else Listings(trace[..|trace| - 1]) + if trace[|trace| - 1].List? then 1 else 0
  }

  lemma ListingsNext(trace: seq<WarmEv>, more: seq<WarmEv>)
    requires forall e :: e in more ==> !e.List?
    ensures Listings(trace + more) == Listings(trace)
    decreases |more|
  {
    if more == [] {
      assert trace + more == trace;
    } else {
      var init := more[..|more| - 1];
      ListingsNext(trace, init);
      assert (trace + more)[..|trace + more| - 1] == trace + init;
      assert more[|more| - 1] in more;
    }
  }

  /**
   Runs one background listing. `answers` are the ends of its waits; the context is cancelled
   when they run out. Both slots are free again when it returns, whatever happened.
   */
  method RunWarmListing(answers: seq<GateAnswer>) returns (ran: bool, trace: seq<WarmEv>)
    ensures WarmReplay(trace) == Some(WarmHeld(false, false))
    ensures Listings(trace) == if ran then 1 else 0
    ensures ran <==> exists k :: 0 <= k < |answers| && answers[k].Admitted? && forall i :: 0 <= i < k ==> answers[i].TimedOut?
  {
    trace := [];
    var i := 0;
    hide WarmReplay, Listings;
    NothingDone();
    while i < |answers|
      invariant 0 <= i <= |answers|
      invariant forall j :: 0 <= j < i ==> answers[j].TimedOut?
      invariant WarmReplay(trace) == Some(WarmHeld(false, false))
      invariant Listings(trace) == 0
    {
      WithMaint(trace);
      trace := trace + [TakeMaint, GateWait(true)];
      if answers[i].Admitted? {
        WithBothSlots(trace);
        return true, trace + [TakeList, List, GiveList, GiveMaint];
      }
      WarmNext(trace, WarmHeld(true, false), GiveMaint);
      ListingsNext(trace, [GiveMaint]);
      trace := trace + [GiveMaint];
      if answers[i].Left? {
        return false, trace;
      }
      WarmNext(trace, WarmHeld(false, false), Pause);
      ListingsNext(trace, [Pause]);
      trace := trace + [Pause];
      i := i + 1;
    }
    return false, trace;
  }

  lemma NothingDone()
    ensures WarmReplay([]) == Some(WarmHeld(false, false)) && Listings([]) == 0
  {
  }

  lemma WithMaint(trace: seq<WarmEv>)
    requires WarmReplay(trace) == Some(WarmHeld(false, false)) && Listings(trace) == 0
    ensures WarmReplay(trace + [TakeMaint, GateWait(true)]) == Some(WarmHeld(true, false))
    ensures Listings(trace + [TakeMaint, GateWait(true)]) == 0
  {
    hide WarmReplay, Listings;
    WarmNext(trace, WarmHeld(false, false), TakeMaint);
    WarmNext(trace + [TakeMaint], WarmHeld(true, false), GateWait(true));
    ListingsNext(trace, [TakeMaint, GateWait(true)]);
    assert trace + [TakeMaint] + [GateWait(true)] == trace + [TakeMaint, GateWait(true)];
  }

  lemma WithBothSlots(trace: seq<WarmEv>)
    requires WarmReplay(trace) == Some(WarmHeld(true, false)) && Listings(trace) == 0
    ensures WarmReplay(trace + [TakeList, List, GiveList, GiveMaint]) == Some(WarmHeld(false, false))
    ensures Listings(trace + [TakeList, List, GiveList, GiveMaint]) == 1
  {
    var t1 := trace + [TakeList];
    var t2 := t1 + [List];
    var t3 := t2 + [GiveList];
    WarmNext(trace, WarmHeld(true, false), TakeList);
    WarmNext(t1, WarmHeld(true, true), List);
    WarmNext(t2, WarmHeld(true, true), GiveList);
    WarmNext(t3, WarmHeld(true, false), GiveMaint);
    assert trace + [TakeList, List, GiveList, GiveMaint] == t3 + [GiveMaint];
    ListingsNext(trace, [TakeList]);
    assert t2[..|t1|] == t1;
    ListingsNext(t2, [GiveList, GiveMaint]);
    assert trace + [TakeList, List, GiveList, GiveMaint] == t2 + [GiveList, GiveMaint];
  }
}
