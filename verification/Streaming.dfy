/** How one `list -files` run is kept: the output tail, the gzip spool, and the run as a whole. */
module Streaming {

  newtype byte = b: int | 0 <= b < 256

  type Bytes = seq<byte>

  /** The last `n` bytes, or all of them. */
  function Tail(s: Bytes, n: nat): Bytes
  {
    if |s| <= n then s else s[|s| - n..]
  }

  // ------------------------------------------------------------------------------
  // The tail ring
  // ------------------------------------------------------------------------------

  class TailRing {
    const buf: array<byte>
    var pos: nat
    var full: bool
    /** Everything ever written. */
    ghost var written: Bytes

    ghost predicate Valid()
      reads this, buf
    {
      buf.Length > 0 && Holds(buf[..], pos, full, written)
    }

    constructor (window: nat)
      requires window > 0
      ensures Valid() && fresh(buf) && buf.Length == window && written == []
    {
      buf := new byte[window];
      pos, full, written := 0, false, [];
    }

    /** Keeps the window; a write of any length may wrap, fill or overrun it. */
    method Write(p: Bytes)
      requires Valid()
      modifies this, buf
      ensures Valid() && written == old(written) + p
    {
      hide Holds;
      if |p| == 0 {
        assert written + p == written;
        return;
      }
      var size := buf.Length;
      ghost var was := buf[..];
      ghost var all := written + p;
      if |p| >= size {
        CopyTo(0, p[|p| - size..]);
        Overruns(was, buf[..], written, p);
        pos, full, written := 0, true, all;
        return;
      }
      CopyAcross(p);
      Wrapped(pos + |p|, size);
      pos, written := (pos + |p|) % size, all;
      if pos == 0 {
        full := true;
      }
    }

    /** Copies a write shorter than the window, wrapping to the front when the end is reached. */
    method CopyAcross(p: Bytes)
      requires Valid() && 0 < |p| < buf.Length
      modifies this`full, buf
      ensures pos < buf.Length
      ensures Holds(buf[..], Around(pos + |p|, buf.Length), full || Around(pos + |p|, buf.Length) == 0, written + p)
    {
      hide Holds;
      ghost var was := buf[..];
      PosInRange(was, pos, full, written);
      var room := buf.Length - pos;
      if |p| <= room {
        CopyTo(pos, p);
        Fits(was, buf[..], pos, full, written, p);
      } else {
        CopyTo(pos, p[..room]);
        ghost var mid := buf[..];
        CopyTo(0, p[room..]);
        TwoCopies(was, mid, buf[..], pos, full, written, p);
        full := true;
      }
    }

    method CopyTo(at: nat, p: Bytes)
      requires at + |p| <= buf.Length
      modifies buf
      ensures buf[..] == old(buf[..])[..at] + p + old(buf[..])[at + |p|..]
    {
      forall i | 0 <= i < |p| {
        buf[at + i] := p[i];
      }
    }

    method String() returns (s: Bytes)
      requires Valid()
      ensures s == Tail(written, buf.Length)
    {
      assert buf[..][pos..] == buf[pos..] && buf[..][..pos] == buf[..pos];
      if !full {
        return buf[..pos];
      }
      return buf[pos..] + buf[..pos];
    }
  }

  /** The index reached after running past the end of a buffer of length `n` at most once. */
  function Around(x: nat, n: nat): nat
  {
    if x < n then x else x - n
  }

  /** What the ring holds when its buffer is `buf` and `pos` and `full` say how to read it. */
  ghost predicate Holds(buf: Bytes, pos: nat, full: bool, written: Bytes)
  {
    && pos < |buf|
    && (!full ==> written == buf[..pos])
    && (full ==> |written| >= |buf| && buf[pos..] + buf[..pos] == written[|written| - |buf|..])
  }

  lemma TwoCopies(a: Bytes, m: Bytes, b: Bytes, pos: nat, full: bool, written: Bytes, p: Bytes)
    requires Holds(a, pos, full, written) && pos < |a| && |a| - pos < |p| < |a|
    requires var head := p[..|a| - pos]; m == a[..pos] + head + a[pos + |head|..]
    requires var rest := p[|a| - pos..]; b == m[..0] + rest + m[0 + |rest|..]
    ensures Holds(b, pos + |p| - |a|, true, written + p)
  {
    Wraps(a, b, pos, full, written, p);
  }

  lemma Wrapped(x: nat, n: nat)
    requires 0 < n && x < 2 * n
    ensures x % n == Around(x, n)
  {
    if n <= x {
      assert x == n * 1 + (x - n);
    }
  }

  lemma PosInRange(buf: Bytes, pos: nat, full: bool, written: Bytes)
    requires Holds(buf, pos, full, written)
    ensures pos < |buf|
  {
  }

  lemma Overruns(a: Bytes, b: Bytes, written: Bytes, p: Bytes)
    requires 0 < |a| <= |p| && b == a[..0] + p[|p| - |a|..] + a[|a|..]
    ensures Holds(b, 0, true, written + p)
  {
    assert (written + p)[|written + p| - |a|..] == p[|p| - |a|..];
    assert b[0..] + b[..0] == b;
  }

  lemma Fits(a: Bytes, b: Bytes, pos: nat, full: bool, written: Bytes, p: Bytes)
    requires Holds(a, pos, full, written)
    requires 0 < |p| <= |a| - pos && b == a[..pos] + p + a[pos + |p|..]
    ensures pos + |p| < |a| ==> Holds(b, pos + |p|, full, written + p)
    ensures pos + |p| == |a| ==> Holds(b, 0, true, written + p)
  {
    var all := written + p;
    var end := pos + |p|;
    assert b[..end] == a[..pos] + p;
    assert b[end..] == a[end..];
    if full {
      assert all[|all| - |a|..] == written[|written| - |a| + |p|..] + p;
      assert written[|written| - |a| + |p|..] == (a[pos..] + a[..pos])[|p|..];
      assert (a[pos..] + a[..pos])[|p|..] == a[end..] + a[..pos];
      if end < |a| {
        assert b[end..] + b[..end] == all[|all| - |a|..];
      } else {
        assert b[0..] + b[..0] == b == a[..pos] + p;
      }
    } else if end == |a| {
      assert b[0..] + b[..0] == b == all;
      assert all[|all| - |a|..] == all;
    }
  }

  /** The window before a write that wraps, without its oldest `|p|` bytes, is what the write leaves standing. */
  lemma Standing(a: Bytes, pos: nat, full: bool, written: Bytes, p: nat)
    requires Holds(a, pos, full, written) && |a| - pos < p < |a|
    ensures |written| >= |a| - p && written[|written| - (|a| - p)..] == a[p - (|a| - pos)..pos]
  {
    var end := p - (|a| - pos);
    if full {
      var window := a[pos..] + a[..pos];
      assert written[|written| - |a|..] == window;
      assert written[|written| - (|a| - p)..] == window[p..];
      assert window[p..] == a[end..pos];
    }
  }

  lemma Wraps(a: Bytes, b: Bytes, pos: nat, full: bool, written: Bytes, p: Bytes)
    requires Holds(a, pos, full, written)
    requires |a| - pos < |p| < |a|
    requires var room := |a| - pos;
             b == p[room..] + a[|p| - room..pos] + p[..room]
    ensures Holds(b, pos + |p| - |a|, true, written + p)
  {
    var room := |a| - pos;
    var end := |p| - room;
    var all, kept := written + p, a[end..pos];
    Standing(a, pos, full, written, |p|);
    hide Holds;
    assert b[end..] == kept + p[..room];
    assert b[..end] == p[room..];
    Append(kept, p[..room], p[room..]);
    assert p[..room] + p[room..] == p;
    assert all[|all| - |a|..] == written[|written| - (|a| - |p|)..] + p;
    WindowHeld(b, end, all);
  }

  lemma WindowHeld(b: Bytes, pos: nat, written: Bytes)
    requires pos < |b| <= |written| && b[pos..] + b[..pos] == written[|written| - |b|..]
    ensures Holds(b, pos, true, written)
  {
  }

  // ------------------------------------------------------------------------------
  // The spool
  // ------------------------------------------------------------------------------

  /** `CeilingFault` is permanent for the revision, `IoFault` is not. */
  datatype Fault = NoFault | CeilingFault | IoFault

  /** A stream of `n` bytes can be spooled: in RAM, or in a file below the ceiling. */
  predicate Spoolable(memMax: nat, fileMax: int, n: nat)
  {
    n <= memMax || n <= fileMax
  }

  lemma SpoolableShrinks(memMax: nat, fileMax: int, a: nat, b: nat)
    requires a <= b
    ensures Spoolable(memMax, fileMax, b) ==> Spoolable(memMax, fileMax, a)
  {
  }

  /** Every file operation succeeds. */
  ghost predicate AllWell(io: nat -> bool)
  {
    forall i :: io(i)
  }

  /**
   Gzip bytes in RAM up to `memMax`, then in a temp file behind a write buffer. `io(i)` says
   whether the i-th operation on the file system succeeds.
   */
  class ListSpool {
    const memMax: nat
    const fileMax: int
    const io: nat -> bool
    var ops: nat
    var mem: Bytes
    var spilled: bool
    var file: Bytes
    var buffered: Bytes
    var n: nat

    ghost function Contents(): Bytes
      reads this
    {
      if spilled then file + buffered else mem
    }

    ghost predicate Valid()
      reads this
    {
      n == |Contents()| && (if spilled then memMax < n <= fileMax else n <= memMax)
    }

    constructor (memMax: nat, fileMax: int, io: nat -> bool)
      ensures Valid() && Contents() == [] && this.memMax == memMax && this.fileMax == fileMax && this.io == io
    {
      this.memMax, this.fileMax, this.io := memMax, fileMax, io;
      ops, mem, spilled, file, buffered, n := 0, [], false, [], [], 0;
    }

    /** One operation on the file system. */
    method Operate() returns (ok: bool)
      modifies this`ops
      ensures AllWell(io) ==> ok
    {
      ok := io(ops);
      ops := ops + 1;
    }

    /**
     Takes the bytes, or reports why it cannot; nothing is promised of a spool that reported a
     fault. What fits in RAM is always taken. A stream that cannot be spooled is blamed on the
     ceiling, and nothing else is, unless the file system fails.
     */
    method Write(p: Bytes) returns (fault: Fault)
      requires Valid()
      modifies this
      ensures fault.NoFault? ==> Valid() && Contents() == old(Contents()) + p
      ensures old(n) + |p| <= memMax ==> fault.NoFault?
      ensures fault.NoFault? ==> Spoolable(memMax, fileMax, old(n) + |p|)
      ensures fault.CeilingFault? ==> !Spoolable(memMax, fileMax, old(n) + |p|)
      ensures AllWell(io) ==> !fault.IoFault?
    {
      if !spilled {
        if |mem| + |p| <= memMax {
          n := n + |p|;
          mem := mem + p;
          return NoFault;
        }
        var ok := Spill();
        if !ok {
          return IoFault;
        }
      }
      if n + |p| > fileMax {
        return CeilingFault;
      }
      ghost var before := Contents();
      var flush: bool := *;
      if flush {
        var ok := Operate();
        if !ok {
          return IoFault;
        }
        file, buffered := file + buffered, p;
      } else {
        buffered := buffered + p;
      }
      n := n + |p|;
      assert Contents() == before + p;
      return NoFault;
    }

    /** Moves what is in RAM to a new temp file. */
    method Spill() returns (ok: bool)
      requires !spilled
      modifies this`ops, this`mem, this`spilled, this`file, this`buffered
      ensures ok ==> spilled && Contents() == old(Contents())
      ensures AllWell(io) ==> ok
    {
      ok := Operate();
      if ok {
        spilled, file, buffered, mem := true, [], mem, [];
      }
    }

    /** Flushes the write buffer, so that reading the file sees everything. */
    method Seal() returns (ok: bool)
      requires Valid()
      modifies this`ops, this`file, this`buffered
      ensures ok ==> Valid() && Contents() == old(Contents()) && (spilled ==> buffered == [])
      ensures !spilled || AllWell(io) ==> ok
    {
      if !spilled {
        return true;
      }
      ok := Operate();
      if ok {
        file, buffered := file + buffered, [];
      }
    }

    /** Reads the spool back: the RAM copy, or the first `n` bytes of the file. */
    method ReadAll() returns (s: Bytes)
      requires Valid() && (spilled ==> buffered == [])
      ensures s == Contents()
    {
      if spilled {
        assert file + buffered == file;
        return file[..n];
      }
      return mem;
    }
  }

  // ------------------------------------------------------------------------------
  // A run of the child
  // ------------------------------------------------------------------------------

  /** Gzip, of which only the round trip matters; a damaged stream may fail at its header or further on. */
  datatype Inflated = BadHeader | Damaged(prefix: Bytes) | Whole(raw: Bytes)

  datatype Codec = Codec(deflate: Bytes -> Bytes, inflate: Bytes -> Inflated)
  {
    ghost predicate Valid()
    {
      forall x: Bytes :: inflate(deflate(x)) == Whole(x)
    }
  }

  /** One write of child output and the compressed pieces the gzip writer emits for it. */
  datatype Chunk = Chunk(raw: Bytes, pieces: seq<Bytes>)

  /** What a child does: its output in pieces, what closing the gzip writer emits, and how it ends. */
  datatype Script = Script(chunks: seq<Chunk>, trailer: seq<Bytes>, exitOk: bool)

  function Concat(pieces: seq<Bytes>): Bytes
  {
    if pieces == [] then [] else Concat(pieces[..|pieces| - 1]) + pieces[|pieces| - 1]
  }

  function RawOf(chunks: seq<Chunk>): Bytes
  {
    if chunks == [] then [] else RawOf(chunks[..|chunks| - 1]) + chunks[|chunks| - 1].raw
  }

  function PiecesOf(chunks: seq<Chunk>): Bytes
  {
    if chunks == [] then [] else PiecesOf(chunks[..|chunks| - 1]) + Concat(chunks[|chunks| - 1].pieces)
  }

  /** The gzip writer may flush when it likes; what it emits in all is the compressed output. */
  predicate Faithful(codec: Codec, script: Script)
  {
    PiecesOf(script.chunks) + Concat(script.trailer) == codec.deflate(RawOf(script.chunks))
  }

  /** A complete listing, or why there is none together with the tail of the output. */
  datatype RunResult = Complete(gz: Bytes, raw: nat) | Broken(fault: Fault, tail: Bytes)

  const LIST_TAIL_BYTES: nat := 65536

  lemma {:induction false} ConcatGrows(pieces: seq<Bytes>, k: nat)
    requires k <= |pieces|
    ensures |Concat(pieces[..k])| <= |Concat(pieces)|
  {
    if k == |pieces| {
      assert pieces[..k] == pieces;
    } else {
      var init := pieces[..|pieces| - 1];
      ConcatGrows(init, k);
      assert init[..k] == pieces[..k];
    }
  }

  lemma {:induction false} PiecesGrow(chunks: seq<Chunk>, k: nat)
    requires k <= |chunks|
    ensures |PiecesOf(chunks[..k])| <= |PiecesOf(chunks)|
  {
    if k == |chunks| {
      assert chunks[..k] == chunks;
    } else {
      var init := chunks[..|chunks| - 1];
      PiecesGrow(init, k);
      assert init[..k] == chunks[..k];
    }
  }

  lemma ConcatNext(pieces: seq<Bytes>, i: nat)
    requires i < |pieces|
    ensures Concat(pieces[..i + 1]) == Concat(pieces[..i]) + pieces[i]
    ensures |Concat(pieces[..i + 1])| <= |Concat(pieces)|
  {
    assert pieces[..i + 1][..i] == pieces[..i];
    ConcatGrows(pieces, i + 1);
  }

  lemma NoPieces(pieces: seq<Bytes>)
    ensures Concat(pieces[..0]) == []
  {
  }

  /** What the first `i + 1` chunks hold in addition to the first `i`. */
  lemma ChunksNext(chunks: seq<Chunk>, i: nat)
    requires i < |chunks|
    ensures RawOf(chunks[..i + 1]) == RawOf(chunks[..i]) + chunks[i].raw
    ensures PiecesOf(chunks[..i + 1]) == PiecesOf(chunks[..i]) + Concat(chunks[i].pieces)
    ensures |PiecesOf(chunks[..i + 1])| <= |PiecesOf(chunks)|
  {
    hide Concat;
    assert chunks[..i + 1][..i] == chunks[..i];
    PiecesGrow(chunks, i + 1);
  }

  lemma NoChunks(chunks: seq<Chunk>)
    ensures RawOf(chunks[..0]) == [] && PiecesOf(chunks[..0]) == []
  {
  }

  /** Appending in two steps. */
  lemma Append(a: Bytes, b: Bytes, c: Bytes)
    ensures a + b + c == a + (b + c)
  {
  }

  method WritePieces(spool: ListSpool, pieces: seq<Bytes>) returns (fault: Fault)
    requires spool.Valid()
    modifies spool
    ensures fault.NoFault? ==> spool.Valid() && spool.Contents() == old(spool.Contents()) + Concat(pieces)
    ensures fault.CeilingFault? ==>
              !Spoolable(spool.memMax, spool.fileMax, |old(spool.Contents())| + |Concat(pieces)|)
    ensures fault.IoFault? ==> |old(spool.Contents())| + |Concat(pieces)| > spool.memMax
    ensures AllWell(spool.io) ==> !fault.IoFault?
  {
    hide Concat;
    fault := NoFault;
    ghost var before := spool.Contents();
    NoPieces(pieces);
    for i := 0 to |pieces|
      invariant spool.Valid() && spool.Contents() == before + Concat(pieces[..i])
    {
      ConcatNext(pieces, i);
      Append(before, Concat(pieces[..i]), pieces[i]);
      fault := spool.Write(pieces[i]);
      if !fault.NoFault? {
        return;
      }
    }
    fault := NoFault;
    assert pieces[..|pieces|] == pieces;
  }

  /** The length of the whole compressed listing. */
  function StreamSize(codec: Codec, script: Script): nat
  {
    |codec.deflate(RawOf(script.chunks))|
  }

  /** What the gzip writer has emitted before it is closed. */
  function EarlySize(script: Script): nat
  {
    |PiecesOf(script.chunks)|
  }

  /** A fault that only closing the gzip writer brings about. */
  predicate CrossesLate(codec: Codec, script: Script, memMax: nat, fileMax: int)
  {
    && script.exitOk && Spoolable(memMax, fileMax, EarlySize(script))
    && !Spoolable(memMax, fileMax, StreamSize(codec, script))
  }

  /**
   The child was stopped in its k-th chunk: everything before it could be spooled, and with it the
   stream crosses the ceiling, or leaves RAM when the file system is to blame. A run without a
   fault, and one that fails only when it is closed, gets to the last chunk.
   */
  predicate StoppedAt(script: Script, memMax: nat, fileMax: int, fault: Fault, k: nat)
    requires k <= |script.chunks|
  {
    match fault
    case NoFault => k == |script.chunks|
    case CeilingFault =>
      && k > 0 && Spoolable(memMax, fileMax, |PiecesOf(script.chunks[..k - 1])|)
      && !Spoolable(memMax, fileMax, |PiecesOf(script.chunks[..k])|)
    case IoFault =>
      || k == |script.chunks|
      || (k > 0 && Spoolable(memMax, fileMax, |PiecesOf(script.chunks[..k - 1])|) && |PiecesOf(script.chunks[..k])| > memMax)
  }

  /** What the result of a run may be; when the file system works, exactly which. */
  ghost predicate Ran(codec: Codec, script: Script, memMax: nat, fileMax: int, io: nat -> bool, r: RunResult)
  {
    match r
    case Complete(gz, raw) =>
      && script.exitOk && Spoolable(memMax, fileMax, StreamSize(codec, script))
      && gz == codec.deflate(RawOf(script.chunks)) && raw == |RawOf(script.chunks)|
    case Broken(fault, tail) =>
      && (exists k: nat :: k <= |script.chunks| && StoppedAt(script, memMax, fileMax, fault, k)
                           && tail == Tail(RawOf(script.chunks[..k]), LIST_TAIL_BYTES))
      && match fault
         case CeilingFault => !Spoolable(memMax, fileMax, EarlySize(script))
         case IoFault => !AllWell(io) || CrossesLate(codec, script, memMax, fileMax)
         case NoFault => !script.exitOk && Spoolable(memMax, fileMax, EarlySize(script))
  }

  /**
   Runs a listing to completion. Whatever the chunking and wherever the spool spills, a run
   that completes holds the compressed whole output and its length; a run that failed, was
   killed or crossed the ceiling yields nothing but the tail of what it had printed, up to and
   including the chunk in which it was stopped.
   */
  method RunListFiles(codec: Codec, script: Script, memMax: nat, fileMax: int, io: nat -> bool) returns (r: RunResult)
    requires Faithful(codec, script)
    ensures Ran(codec, script, memMax, fileMax, io, r)
  {
    hide Holds, Ran, StoppedAt, PiecesOf, RawOf, Concat, Tail;
    var spool := new ListSpool(memMax, fileMax, io);
    var ring := new TailRing(LIST_TAIL_BYTES);
    var raw, fault, k := CopyOutput(spool, ring, script.chunks);
    ghost var copied := fault;
    if fault.NoFault? && script.exitOk {
      fault := WritePieces(spool, script.trailer);
      if fault.NoFault? {
        var sealed := spool.Seal();
        if sealed {
          SpooledSoFar(spool);
          var gz := spool.ReadAll();
          CompleteRan(codec, script, memMax, fileMax, io, gz, raw);
          return Complete(gz, raw);
        }
      }
      fault := IoFault;
    }
    var tail := ring.String();
    BrokenRan(codec, script, memMax, fileMax, io, copied, fault, k, tail);
    return Broken(fault, tail);
  }

  lemma CompleteRan(codec: Codec, script: Script, memMax: nat, fileMax: int, io: nat -> bool, gz: Bytes, raw: nat)
    requires Faithful(codec, script) && script.exitOk
    requires gz == PiecesOf(script.chunks) + Concat(script.trailer) && Spoolable(memMax, fileMax, |gz|)
    requires raw == |RawOf(script.chunks)|
    ensures Ran(codec, script, memMax, fileMax, io, Complete(gz, raw))
  {
  }

  lemma BrokenRan(codec: Codec, script: Script, memMax: nat, fileMax: int, io: nat -> bool, copied: Fault, fault: Fault,
                  k: nat, tail: Bytes)
    requires Faithful(codec, script) && k <= |script.chunks|
    requires StoppedAt(Script(script.chunks, [], true), memMax, fileMax, copied, k)
    requires tail == Tail(RawOf(script.chunks[..k]), LIST_TAIL_BYTES)
    requires fault == if copied.NoFault? && script.exitOk then IoFault else copied
    requires copied.CeilingFault? ==> !Spoolable(memMax, fileMax, EarlySize(script))
    requires copied.NoFault? ==> Spoolable(memMax, fileMax, EarlySize(script))
    requires copied.NoFault? && script.exitOk && AllWell(io) ==> !Spoolable(memMax, fileMax, StreamSize(codec, script))
    requires AllWell(io) ==> !copied.IoFault?
    ensures Ran(codec, script, memMax, fileMax, io, Broken(fault, tail))
  {
    hide Tail, PiecesOf, RawOf, Concat, Spoolable;
    assert StoppedAt(script, memMax, fileMax, fault, k);
  }

  lemma SpooledSoFar(spool: ListSpool)
    requires spool.Valid()
    ensures Spoolable(spool.memMax, spool.fileMax, |spool.Contents()|)
  {
  }

  /** The sink behind the child's output: every chunk goes to the tail and, compressed, to the spool. */
  method CopyOutput(spool: ListSpool, ring: TailRing, chunks: seq<Chunk>) returns (raw: nat, fault: Fault, ghost k: nat)
    requires spool.Valid() && spool.Contents() == [] && ring.Valid() && ring.written == []
    modifies spool, ring, ring.buf
    ensures k <= |chunks| && ring.Valid() && ring.written == RawOf(chunks[..k])
    ensures fault.NoFault? ==> spool.Valid() && spool.Contents() == PiecesOf(chunks)
                               && k == |chunks| && chunks[..k] == chunks && raw == |RawOf(chunks)|
    ensures fault.CeilingFault? ==> !Spoolable(spool.memMax, spool.fileMax, |PiecesOf(chunks)|)
    ensures StoppedAt(Script(chunks, [], true), spool.memMax, spool.fileMax, fault, k)
    ensures AllWell(spool.io) ==> !fault.IoFault?
  {
    hide Holds, RawOf, PiecesOf, Concat, Spoolable;
    raw, fault, k := 0, NoFault, 0;
    var i := 0;
    NoChunks(chunks);
    while i < |chunks| && fault.NoFault?
      invariant 0 <= i == k <= |chunks|
      invariant ring.Valid() && ring.written == RawOf(chunks[..i])
      invariant fault.NoFault? ==>
                  spool.Valid() && spool.Contents() == PiecesOf(chunks[..i]) && raw == |RawOf(chunks[..i])|
      invariant fault.CeilingFault? ==> !Spoolable(spool.memMax, spool.fileMax, |PiecesOf(chunks)|)
      invariant fault.NoFault? || StoppedAt(Script(chunks, [], true), spool.memMax, spool.fileMax, fault, k)
      invariant AllWell(spool.io) ==> !fault.IoFault?
    {
      var c := chunks[i];
      SpooledSoFar(spool);
      ChunksNext(chunks, i);
      ring.Write(c.raw);
      fault := WritePieces(spool, c.pieces);
      SpoolableShrinks(spool.memMax, spool.fileMax, |PiecesOf(chunks[..i + 1])|, |PiecesOf(chunks)|);
      if fault.NoFault? {
        raw := raw + |c.raw|;
      }
      i, k := i + 1, k + 1;
    }
    assert i == |chunks| ==> chunks[..i] == chunks;
  }

  /** With a working file system the outcome of a run is decided by three sizes and the exit. */
  lemma RunDecides(codec: Codec, script: Script, memMax: nat, fileMax: int, io: nat -> bool, r: RunResult)
    requires Faithful(codec, script) && AllWell(io) && Ran(codec, script, memMax, fileMax, io, r)
    ensures r.Complete? <==> script.exitOk && Spoolable(memMax, fileMax, StreamSize(codec, script))
    ensures r.Broken? && r.fault.CeilingFault? <==> !Spoolable(memMax, fileMax, EarlySize(script))
    ensures r.Broken? && r.fault.IoFault? <==> CrossesLate(codec, script, memMax, fileMax)
    ensures r.Broken? && r.fault.NoFault? <==> !script.exitOk && Spoolable(memMax, fileMax, EarlySize(script))
  {
    assert EarlySize(script) <= StreamSize(codec, script);
  }

  /** What is shown of a child that failed by itself: the end of its whole output, 64 KiB of it at most. */
  lemma FailureShowsTheEnd(codec: Codec, script: Script, memMax: nat, fileMax: int, io: nat -> bool, tail: Bytes)
    requires Ran(codec, script, memMax, fileMax, io, Broken(NoFault, tail))
    ensures var all := RawOf(script.chunks);
            && |tail| == (if |all| <= 64 * 1024 then |all| else 64 * 1024)
            && all == all[..|all| - |tail|] + tail
  {
    assert script.chunks[..|script.chunks|] == script.chunks;
  }

  /** A code that appends a byte, and the script of a listing that only this byte brings over a ceiling of one. */
  function Stamp(): Codec
  {
    Codec(x => x + [0], y => if y == [] then BadHeader else Whole(y[..|y| - 1]))
  }

  const LATE: Script := Script([Chunk([7], [[7]])], [[0]], true)

  /** The ceiling is crossed, and the run is reported as a fault of the spool. */
  method CeilingCrossedUnseen() returns (r: RunResult)
    ensures Stamp().Valid() && Faithful(Stamp(), LATE) && StreamSize(Stamp(), LATE) > 1
    ensures r.Broken? && r.fault.IoFault?
  {
    LateSizes();
    assert Stamp().Valid() by {
      forall x: Bytes
        ensures Stamp().inflate(Stamp().deflate(x)) == Whole(x)
      {
        assert (x + [0])[..|x|] == x;
      }
    }
    r := RunListFiles(Stamp(), LATE, 1, 1, _ => true);
    RunDecides(Stamp(), LATE, 1, 1, _ => true, r);
  }

  lemma LateSizes()
    ensures RawOf(LATE.chunks) == [7] && PiecesOf(LATE.chunks) == [7] && Concat(LATE.trailer) == [0]
    ensures Faithful(Stamp(), LATE)
  {
    var c: Chunk := Chunk([7], [[7]]);
    var none: seq<Chunk> := [c][..0];
    assert none == [] && RawOf(none) == [] && PiecesOf(none) == [];
    var p: seq<Bytes> := [[7]];
    assert p[..0] == [] && Concat(p[..0]) == [] && Concat(p) == [7];
    var t: seq<Bytes> := [[0]];
    assert t[..0] == [] && Concat(t[..0]) == [] && Concat(t) == [0];
    assert LATE.chunks[..0] == none;
    assert [7] + [0] == [7, 0];
  }
}
