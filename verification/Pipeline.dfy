/** Container, decoder and queue of ready frames: looping and the end of a video. Durations
    are nanoseconds. */
module Pipeline {
  import opened Wrappers
  import opened Arith

  /** Picture data is not looked at here. */
  type Picture(!new)

  datatype DecodedFrame = DecodedFrame(pts: nat, data: Picture)

  /** What the decoder makes of one pass over the file: the frames that come out with each
      packet, and the ones it held back to the end. Real decoders hand out the same frames
      differently grouped, so every pass has its own grouping. */
  datatype Pass = Pass(outs: seq<seq<DecodedFrame>>, tail: seq<DecodedFrame>)

  type Script = nat -> Pass

  datatype Packet = Packet(pass: nat, index: nat)

  class Demuxer {
    const script: Script
    const duration: Option<nat>
    var pass: nat
    var pos: nat

    constructor (script: Script, duration: Option<nat>)
      ensures this.script == script && this.duration == duration && pass == 0 && pos == 0
    {
      this.script, this.duration := script, duration;
      pass, pos := 0, 0;
    }

    /** The next packet of this pass, None behind the last one. */
    method NextPacket() returns (p: Option<Packet>)
      requires pos <= |script(pass).outs|
      modifies this`pos
      ensures old(pos) < |script(pass).outs| ==> p == Some(Packet(pass, old(pos))) && pos == old(pos) + 1
      ensures old(pos) == |script(pass).outs| ==> p == None && pos == old(pos)
    {
      if pos == |script(pass).outs| {
        return None;
      }
      p := Some(Packet(pass, pos));
      pos := pos + 1;
    }

    method Rewind()
      modifies this
      ensures pass == old(pass) + 1 && pos == 0
    {
      pass, pos := pass + 1, 0;
    }
  }

  class Decoder {
    const script: Script
    var pass: nat

    constructor (script: Script)
      ensures this.script == script && pass == 0
    {
      this.script := script;
      pass := 0;
    }

    method Decode(p: Packet) returns (frames: seq<DecodedFrame>)
      requires p.pass == pass && p.index < |script(pass).outs|
      ensures frames == script(pass).outs[p.index]
    {
      frames := script(pass).outs[p.index];
    }

    method Flush() returns (frames: seq<DecodedFrame>)
      ensures frames == script(pass).tail
    {
      frames := script(pass).tail;
    }

    method Reset()
      modifies this
      ensures pass == old(pass) + 1
    {
      pass := pass + 1;
    }
  }

  datatype Next = Frame(frame: DecodedFrame) | End
  datatype Failure = NoFrames

  const GUARD: nat := 4096

  /** Where a pipeline is. */
  datatype Position = Position(pass: nat, pos: nat, ready: seq<DecodedFrame>, flushed: bool, offset: nat)

  // ---- frames still to come in a pass ----

  function Concat(outs: seq<seq<DecodedFrame>>, from: nat): seq<DecodedFrame>
    requires from <= |outs|
    decreases |outs| - from
  {
    if from == |outs| then [] else outs[from] + Concat(outs, from + 1)
  }

  /** Everything the decoder still brings in this pass. */
  function Rest(p: Pass, pos: nat, flushed: bool): seq<DecodedFrame>
    requires pos <= |p.outs|
  {
    if flushed then [] else Concat(p.outs, pos) + p.tail
  }

  function Frames(p: Pass): seq<DecodedFrame> {
    Rest(p, 0, false)
  }

  /** Every pass decodes to the same frames. */
  ghost predicate Plays(script: Script, frames: seq<DecodedFrame>) {
    forall n: nat {:trigger Frames(script(n))} :: Frames(script(n)) == frames
  }

  /** Turns of the loop, from a packet on with nothing ready, until something is ready or
      the pass is over. */
  function SilentIn(p: Pass, pos: nat): (n: nat)
    requires pos <= |p.outs|
    ensures n > 0
    decreases |p.outs| - pos
  {
    if pos == |p.outs| || p.outs[pos] != [] then 1 else 1 + SilentIn(p, pos + 1)
  }

  /** Turns of the loop before the one that returns. */
  function Silent(script: Script, looped: bool, at: Position): nat
    requires at.pos <= |script(at.pass).outs|
  {
    var over := 1 + SilentIn(script(at.pass + 1), 0);
    if at.ready != [] then 0
    else if at.flushed then (if looped then over else 0)
    else SilentIn(script(at.pass), at.pos) +
         (if looped && Rest(script(at.pass), at.pos, false) == [] then over else 0)
  }

  class Pipeline {
    const demux: Demuxer
    const decoder: Decoder
    const looped: bool
    /** Turns without a frame after which the file counts as broken. */
    const guard: nat
    var ready: seq<DecodedFrame>
    var flushed: bool
    var loopOffset: nat

    ghost predicate Valid()
      reads this, demux, decoder
    {
      && demux.script == decoder.script && demux.pass == decoder.pass
      && demux.pos <= |demux.script(demux.pass).outs|
      && (flushed ==> demux.pos == |demux.script(demux.pass).outs|)
    }

    function At(): Position
      reads this, demux
    {
      Position(demux.pass, demux.pos, ready, flushed, loopOffset)
    }

    constructor (demux: Demuxer, decoder: Decoder, looped: bool)
      requires demux.script == decoder.script && demux.pass == decoder.pass == 0 && demux.pos == 0
      ensures Valid() && this.demux == demux && this.decoder == decoder && this.looped == looped
      ensures At() == Position(0, 0, [], false, 0) && guard == 4096
    {
      this.demux, this.decoder, this.looped, this.guard := demux, decoder, looped, GUARD;
      ready, flushed, loopOffset := [], false, 0;
    }

    /** What the file says; nothing is as good as zero. */
    function Duration(): nat {
      if demux.duration.Some? then demux.duration.value else 0
    }

    /** One turn of the loop when nothing is ready and the video is not over. */
    method TakeTurn()
      requires Valid() && ready == [] && (flushed ==> looped)
      modifies this, demux, decoder
      ensures Valid()
      ensures At() == Turn(demux.script, if demux.duration.Some? then demux.duration.value else 0, old(At()))
    {
      if flushed {
        loopOffset := loopOffset + Duration();
        demux.Rewind();
        decoder.Reset();
        flushed := false;
        return;
      }
      var p := demux.NextPacket();
      match p {
        case Some(packet) =>
          var frames := decoder.Decode(packet);
          assert ready + frames == frames;
          ready := ready + frames;
        case None =>
          var frames := decoder.Flush();
          assert ready + frames == frames;
          ready := ready + frames;
          flushed := true;
      }
    }

    /** The next frame with its time on the endless timeline, or the end of a video that
        doesn't loop, or an error after too many turns without either. */
    method NextFrame() returns (r: Result<Next, Failure>)
      requires Valid()
      modifies this, demux, decoder
      ensures Valid()
      ensures (r, At()) == Turns(demux.script, looped, if demux.duration.Some? then demux.duration.value else 0,
                                 old(At()), guard)
    {
      var turn := 0;
      while turn < guard
        invariant turn <= guard && Valid()
        invariant Turns(demux.script, looped, Duration(), old(At()), guard) ==
                  Turns(demux.script, looped, Duration(), At(), guard - turn)
      {
        if ready != [] {
          var f := ready[0];
          ready := ready[1..];
          return Ok(Frame(f.(pts := f.pts + loopOffset)));
        }
        if flushed && !looped {
          return Ok(End);
        }
        TakeTurn();
        turn := turn + 1;
      }
      r := Err(NoFrames);
    }
  }

  /** One turn with nothing ready that doesn't end the video. */
  function Turn(script: Script, duration: nat, at: Position): Position
    requires at.pos <= |script(at.pass).outs| && at.ready == []
  {
    if at.flushed then Position(at.pass + 1, 0, [], false, at.offset + duration)
    else if at.pos < |script(at.pass).outs| then at.(pos := at.pos + 1, ready := script(at.pass).outs[at.pos])
    else at.(ready := script(at.pass).tail, flushed := true)
  }

  /** What the loop returns with the given number of turns left, and where it ends up. */
  function Turns(script: Script, looped: bool, duration: nat, at: Position, left: nat): 
      (Result<Next, Failure>, Position)
    requires at.pos <= |script(at.pass).outs|
    decreases left
  {
    if left == 0 then (Err(NoFrames), at)
    else if at.ready != [] then
      (Ok(Frame(at.ready[0].(pts := at.ready[0].pts + at.offset))), at.(ready := at.ready[1..]))
    else if at.flushed && !looped then (Ok(End), at)
    else Turns(script, looped, duration, Turn(script, duration, at), left - 1)
  }

  // ---- what the loop returns ----

  /** k frames of the current pass have been returned; the rest of F is still to come. */
  ghost predicate Playing(script: Script, F: seq<DecodedFrame>, at: Position, k: nat) {
    && at.pos <= |script(at.pass).outs| && k <= |F|
    && (at.flushed ==> at.pos == |script(at.pass).outs|)
    && at.ready + Rest(script(at.pass), at.pos, at.flushed) == F[k..]
  }

  /** A packet's frames become ready. */
  lemma PacketKeepsPlaying(script: Script, F: seq<DecodedFrame>, duration: nat, at: Position, k: nat)
    requires Playing(script, F, at, k) && at.ready == [] && !at.flushed && at.pos < |script(at.pass).outs|
    ensures Playing(script, F, Turn(script, duration, at), k)
  {
    var p := script(at.pass);
    Regroup(p.outs[at.pos], Concat(p.outs, at.pos + 1), p.tail);
  }

  lemma Regroup<T>(a: seq<T>, b: seq<T>, c: seq<T>)
    ensures a + (b + c) == a + b + c && [] + (a + b) == a + b
  {
  }

  lemma TurnKeepsPlaying(script: Script, F: seq<DecodedFrame>, duration: nat, at: Position, k: nat)
    requires Plays(script, F) && Playing(script, F, at, k) && at.ready == []
    ensures if at.flushed then k == |F| && Playing(script, F, Turn(script, duration, at), 0)
            else Playing(script, F, Turn(script, duration, at), k)
  {
    var p := script(at.pass);
    if at.flushed {
      assert Frames(script(at.pass + 1)) == F;
      assert F[0..] == F;
    } else if at.pos < |p.outs| {
      PacketKeepsPlaying(script, F, duration, at, k);
    }
  }

  /** The frame that comes next: F[k] of this pass, or the first of the following one. */
  function Upcoming(F: seq<DecodedFrame>, at: Position, k: nat, duration: nat): DecodedFrame
    requires F != [] && k <= |F|
  {
    if k == |F| then F[0].(pts := F[0].pts + at.offset + duration) else F[k].(pts := F[k].pts + at.offset)
  }

  ghost predicate Returned(script: Script, F: seq<DecodedFrame>, at: Position, k: nat, duration: nat,
      r: Result<Next, Failure>, after: Position)
    requires F != [] && k <= |F|
  {
    var wraps := k == |F|;
    && r == Ok(Frame(Upcoming(F, at, k, duration)))
    && Playing(script, F, after, if wraps then 1 else k + 1)
    && after.pass == (if wraps then at.pass + 1 else at.pass)
    && after.offset == (if wraps then at.offset + duration else at.offset)
  }

  /** Frames left in the pass (or any in the next one): the loop returns the next one after
      exactly the silent turns, if and only if the guard allows that many. */
  lemma {:induction false} LoopReturns(script: Script, F: seq<DecodedFrame>, looped: bool, duration: nat, at: Position,
      k: nat, left: nat)
    requires Plays(script, F) && F != [] && Playing(script, F, at, k) && (looped || k < |F|)
    ensures var t := Turns(script, looped, duration, at, left);
            if Silent(script, looped, at) < left then Returned(script, F, at, k, duration, t.0, t.1)
                else t.0 == Err(NoFrames)
    decreases left
  {
    if left == 0 {
    } else if at.ready != [] {
      ReadyReturns(script, F, at, k, duration);
    } else {
      var next := Turn(script, duration, at);
      TurnKeepsPlaying(script, F, duration, at, k);
      SilentTurn(script, F, looped, duration, at, k);
      var k' := if at.flushed then 0 else k;
      LoopReturns(script, F, looped, duration, next, k', left - 1);
      var t := Turns(script, looped, duration, next, left - 1);
      assert Turns(script, looped, duration, at, left) == t;
      if Silent(script, looped, next) < left - 1 {
        ReturnedLater(script, F, at, k, duration, t.0, t.1);
      }
    }
  }

  lemma ReturnedLater(script: Script, F: seq<DecodedFrame>, at: Position, k: nat, duration: nat,
      r: Result<Next, Failure>, after: Position)
    requires F != [] && k <= |F| && at.pos <= |script(at.pass).outs| && at.ready == [] && (at.flushed ==> k == |F|)
    requires Returned(script, F, Turn(script, duration, at), if at.flushed then 0 else k, duration, r, after)
    ensures Returned(script, F, at, k, duration, r, after)
  {
  }

  lemma ReadyReturns(script: Script, F: seq<DecodedFrame>, at: Position, k: nat, duration: nat)
    requires F != [] && Playing(script, F, at, k) && at.ready != []
    ensures k < |F|
    ensures Returned(script, F, at, k, duration, Ok(Frame(at.ready[0].(pts := at.ready[0].pts + at.offset))),
            at.(ready := at.ready[1..]))
  {
    var rest := Rest(script(at.pass), at.pos, at.flushed);
    assert |at.ready + rest| == |F[k..]|;
    assert F[k..][0] == F[k] && F[k..][1..] == F[k + 1..];
    assert (at.ready + rest)[1..] == at.ready[1..] + rest;
  }

  lemma SilentTurn(script: Script, F: seq<DecodedFrame>, looped: bool, duration: nat, at: Position, k: nat)
    requires Plays(script, F) && F != [] && Playing(script, F, at, k) && at.ready == [] && (looped || k < |F|)
    ensures Turn(script, duration, at).pos <= |script(Turn(script, duration, at).pass).outs|
    ensures Silent(script, looped, at) == 1 + Silent(script, looped, Turn(script, duration, at))
  {
    if at.flushed {
      assert Frames(script(at.pass + 1)) == F;
    } else if at.pos < |script(at.pass).outs| {
      assert Rest(script(at.pass), at.pos, false) == script(at.pass).outs[at.pos] +
             Rest(script(at.pass), at.pos + 1, false);
    } else {
      assert Rest(script(at.pass), at.pos, false) == script(at.pass).tail;
    }
  }

  /** Without looping, once all of F is out, the loop reports the end (if the guard allows
      the silent turns up to it) and then stays there. */
  lemma {:induction false} LoopEnds(script: Script, F: seq<DecodedFrame>, duration: nat, at: Position, left: nat)
    requires Plays(script, F) && Playing(script, F, at, |F|)
    ensures var (r, after) := Turns(script, false, duration, at, left);
            if Silent(script, false, at) < left
            then r == Ok(End) && Playing(script, F, after, |F|) && after.flushed && after.ready == [] &&
                after.offset == at.offset
            else r == Err(NoFrames)
    decreases left
  {
    var p := script(at.pass);
    assert |at.ready + Rest(p, at.pos, at.flushed)| == 0;
    if left > 0 && !at.flushed {
      TurnKeepsPlaying(script, F, duration, at, |F|);
      LoopEnds(script, F, duration, Turn(script, duration, at), left - 1);
    }
  }

  /** From any point of any pass, the silent turns stay under the guard. */
  ghost predicate GapsFit(script: Script, looped: bool, guard: nat) {
    && guard > 0
    && forall at: Position {:trigger Silent(script, looped, at)} ::
         at.pos <= |script(at.pass).outs| && at.ready == [] ==> Silent(script, looped, at) < guard
  }

  /** The n-th frame of endless playback: the list over and over, each pass a duration later. */
  function Timeline(F: seq<DecodedFrame>, duration: nat, n: nat): DecodedFrame
    requires F != []
  {
    var f := F[n % |F|];
    MulNonNegative(n / |F|, duration);
    f.(pts := f.pts + (n / |F|) * duration)
  }

  /** It is frame n mod |F|, as many durations later as passes are over. */
  ghost predicate OnTimeline(r: Result<Next, Failure>, F: seq<DecodedFrame>, duration: nat, n: nat)
    requires F != []
  {
    && r.Ok? && r.value.Frame?
    && r.value.frame.data == F[n % |F|].data && r.value.frame.pts == F[n % |F|].pts + (n / |F|) * duration
  }

  /** q times d, one after the other, as passes add up. */
  function Times(q: nat, d: nat): nat {
    if q == 0 then 0 else Times(q - 1, d) + d
  }

  lemma {:induction false} TimesIs(q: nat, d: nat)
    ensures Times(q, d) == q * d
  {
    if q > 0 {
      TimesIs(q - 1, d);
    }
  }

  /** In pass q, with k of its frames out: n frames in all. */
  ghost predicate Reached(script: Script, F: seq<DecodedFrame>, duration: nat, at: Position, n: nat, q: nat, k: nat) {
    && Playing(script, F, at, k) && at.pass == q && at.offset == Times(q, duration)
    && n == Times(q, |F|) + k
  }

  lemma UpcomingIsTimeline(script: Script, F: seq<DecodedFrame>, duration: nat, at: Position, n: nat, q: nat, k: nat)
    requires F != [] && Reached(script, F, duration, at, n, q, k)
    ensures Upcoming(F, at, k, duration) == Timeline(F, duration, n)
  {
    if k == |F| {
      TimesIs(q + 1, |F|);
      TimesIs(q + 1, duration);
      DivUnique(n, |F|, q + 1, 0);
    } else {
      TimesIs(q, |F|);
      TimesIs(q, duration);
      DivUnique(n, |F|, q, k);
    }
  }

  lemma ReachedNext(script: Script, F: seq<DecodedFrame>, duration: nat, at: Position, n: nat, q: nat, k: nat,
      r: Result<Next, Failure>, after: Position)
    requires F != [] && Reached(script, F, duration, at, n, q, k) && Returned(script, F, at, k, duration, r, after)
    ensures Reached(script, F, duration, after, n + 1, if k == |F| then q + 1 else q, if k == |F| then 1 else k + 1)
  {
    assert Times(q + 1, |F|) == Times(q, |F|) + |F| && Times(q + 1, duration) == Times(q, duration) + duration;
  }

  // ---- runs of calls ----

  /** Call i of a run: what it returns, and where it leaves the pipeline. */
  ghost predicate CallAt(script: Script, looped: bool, duration: nat, guard: nat, trace: seq<Position>,
      results: seq<Result<Next, Failure>>, i: nat)
    requires i < |results| < |trace|
  {
    && trace[i].pos <= |script(trace[i].pass).outs|
    && (results[i], trace[i + 1]) == Turns(script, looped, duration, trace[i], guard)
  }

  /** trace: where the pipeline is before every call, and after the last. */
  ghost predicate Calls(script: Script, looped: bool, duration: nat, guard: nat, trace: seq<Position>,
      results: seq<Result<Next, Failure>>)
  {
    && |trace| == |results| + 1
    && forall i :: 0 <= i < |results| ==> CallAt(script, looped, duration, guard, trace, results, i)
  }

  /** The code's run of n calls. */
  method Play(p: Pipeline, n: nat) returns (results: seq<Result<Next, Failure>>, ghost trace: seq<Position>)
    requires p.Valid()
    modifies p, p.demux, p.decoder
    ensures p.Valid() && |results| == n
    ensures Calls(p.demux.script, p.looped, if p.demux.duration.Some? then p.demux.duration.value else 0, p.guard,
                  trace, results)
    ensures trace[0] == old(p.At()) && trace[n] == p.At()
  {
    results, trace := [], [p.At()];
    while |results| < n
      invariant p.Valid() && |results| <= n
      invariant Calls(p.demux.script, p.looped, p.Duration(), p.guard, trace, results)
      invariant trace[0] == old(p.At()) && trace[|results|] == p.At()
    {
      var r := p.NextFrame();
      CallsOn(p.demux.script, p.looped, p.Duration(), p.guard, trace, results, r, p.At());
      results, trace := results + [r], trace + [p.At()];
    }
  }

  lemma CallsOn(script: Script, looped: bool, duration: nat, guard: nat, trace: seq<Position>,
      results: seq<Result<Next, Failure>>, r: Result<Next, Failure>, after: Position)
    requires Calls(script, looped, duration, guard, trace, results)
    requires var at := trace[|results|];
             at.pos <= |script(at.pass).outs| && (r, after) == Turns(script, looped, duration, at, guard)
    ensures Calls(script, looped, duration, guard, trace + [after], results + [r])
  {
    var trace', results' := trace + [after], results + [r];
    forall i | 0 <= i < |results'| ensures CallAt(script, looped, duration, guard, trace', results', i) {
      assert i < |results| ==> CallAt(script, looped, duration, guard, trace, results, i);
    }
  }

  const FRESH := Position(0, 0, [], false, 0)

  /** A pipeline that was just opened has returned nothing yet. */
  lemma StartsPlaying(script: Script, F: seq<DecodedFrame>, duration: nat)
    requires Plays(script, F)
    ensures Playing(script, F, FRESH, 0)
    ensures F != [] ==> Reached(script, F, duration, FRESH, 0, 0, 0)
  {
    assert Frames(script(0)) == F;
    assert [] + F == F[0..];
  }

  lemma SilentFits(script: Script, looped: bool, guard: nat, at: Position)
    requires GapsFit(script, looped, guard) && at.pos <= |script(at.pass).outs|
    ensures Silent(script, looped, at) < guard
  {
    if at.ready == [] {
      assert Silent(script, looped, at) < guard;
    }
  }

  /** Where looped playback is after n calls; q, k: the passes that are over then, and the frames of
      the current one that are out. */
  lemma {:induction false} LoopedReaches(script: Script, F: seq<DecodedFrame>, duration: nat, guard: nat,
      trace: seq<Position>, results: seq<Result<Next, Failure>>, n: nat) returns (q: nat, k: nat)
    requires Plays(script, F) && F != [] && GapsFit(script, true, guard)
    requires Calls(script, true, duration, guard, trace, results) && trace[0] == FRESH && n <= |results|
    ensures Reached(script, F, duration, trace[n], n, q, k)
  {
    if n == 0 {
      StartsPlaying(script, F, duration);
      q, k := 0, 0;
    } else {
      var passes, out := LoopedReaches(script, F, duration, guard, trace, results, n - 1);
      q, k := CallLooped(script, F, duration, guard, trace, results, n - 1, passes, out);
    }
  }

  /** Looped playback: in any run of calls on a just opened pipeline, call n returns frame n of the
      timeline, however the decoder groups its output. */
  lemma PlayLooped(script: Script, F: seq<DecodedFrame>, duration: nat, guard: nat, trace: seq<Position>,
      results: seq<Result<Next, Failure>>, n: nat)
    requires Plays(script, F) && F != [] && GapsFit(script, true, guard)
    requires Calls(script, true, duration, guard, trace, results) && trace[0] == FRESH && n < |results|
    ensures OnTimeline(results[n], F, duration, n)
  {
    var q, k := LoopedReaches(script, F, duration, guard, trace, results, n);
    var at := trace[n];
    UpcomingIsTimeline(script, F, duration, at, n, q, k);
    q, k := CallLooped(script, F, duration, guard, trace, results, n, q, k);
  }

  lemma CallLooped(script: Script, F: seq<DecodedFrame>, duration: nat, guard: nat, trace: seq<Position>,
      results: seq<Result<Next, Failure>>, n: nat, q: nat, k: nat) returns (q': nat, k': nat)
    requires Plays(script, F) && F != [] && GapsFit(script, true, guard) && n < |results| < |trace|
    requires Reached(script, F, duration, trace[n], n, q, k)
    requires Calls(script, true, duration, guard, trace, results)
    ensures Reached(script, F, duration, trace[n + 1], n + 1, q', k')
    ensures results[n] == Ok(Frame(Upcoming(F, trace[n], k, duration)))
  {
    var at := trace[n];
    assert CallAt(script, true, duration, guard, trace, results, n);
    SilentFits(script, true, guard, at);
    LoopReturns(script, F, true, duration, at, k, guard);
    ReachedNext(script, F, duration, at, n, q, k, results[n], trace[n + 1]);
    q', k' := if k == |F| then q + 1 else q, if k == |F| then 1 else k + 1;
  }

  /** How many frames are out after n calls without looping. */
  function Out(F: seq<DecodedFrame>, n: nat): nat {
    if n < |F| then n else |F|
  }

  lemma {:induction false} OnceReaches(script: Script, F: seq<DecodedFrame>, duration: nat, guard: nat,
      trace: seq<Position>, results: seq<Result<Next, Failure>>, n: nat)
    requires Plays(script, F) && GapsFit(script, false, guard)
    requires Calls(script, false, duration, guard, trace, results) && trace[0] == FRESH && n <= |results|
    ensures Playing(script, F, trace[n], Out(F, n)) && trace[n].offset == 0
  {
    if n == 0 {
      StartsPlaying(script, F, duration);
    } else {
      OnceReaches(script, F, duration, guard, trace, results, n - 1);
      CallOnce(script, F, duration, guard, trace, results, n - 1);
    }
  }

  /** Playback without looping: all of F once, then the end, for as long as anyone asks. */
  lemma PlayOnce(script: Script, F: seq<DecodedFrame>, duration: nat, guard: nat, trace: seq<Position>,
      results: seq<Result<Next, Failure>>, n: nat)
    requires Plays(script, F) && GapsFit(script, false, guard)
    requires Calls(script, false, duration, guard, trace, results) && trace[0] == FRESH && n < |results|
    ensures results[n] == Ok(if n < |F| then Frame(F[n]) else End)
  {
    OnceReaches(script, F, duration, guard, trace, results, n);
    CallOnce(script, F, duration, guard, trace, results, n);
  }

  lemma CallOnce(script: Script, F: seq<DecodedFrame>, duration: nat, guard: nat, trace: seq<Position>,
      results: seq<Result<Next, Failure>>, n: nat)
    requires Plays(script, F) && GapsFit(script, false, guard) && n < |results| < |trace|
    requires Playing(script, F, trace[n], Out(F, n)) && trace[n].offset == 0
    requires Calls(script, false, duration, guard, trace, results)
    ensures Playing(script, F, trace[n + 1], Out(F, n + 1)) && trace[n + 1].offset == 0
    ensures results[n] == Ok(if n < |F| then Frame(F[n]) else End)
  {
    var at := trace[n];
    assert CallAt(script, false, duration, guard, trace, results, n);
    SilentFits(script, false, guard, at);
    if n < |F| {
      LoopReturns(script, F, false, duration, at, n, guard);
    } else {
      LoopEnds(script, F, duration, at, guard);
    }
  }

  /** Times strictly increase for ever, if they do within the clip and stay inside it. */
  lemma TimelineIncreases(F: seq<DecodedFrame>, duration: nat, i: nat, j: nat)
    requires F != [] && i < j
    requires forall a, b :: 0 <= a < b < |F| ==> F[a].pts < F[b].pts
    requires forall a :: 0 <= a < |F| ==> F[a].pts < duration
    ensures Timeline(F, duration, i).pts < Timeline(F, duration, j).pts
  {
    DivMonotone(i, j, |F|);
    DivDefinition(i, |F|);
    DivDefinition(j, |F|);
    if i / |F| < j / |F| {
      MulStep(i / |F|, j / |F|, duration);
    }
  }

  /** Times in F strictly increase and stay below the duration. */
  ghost predicate Ordered(F: seq<DecodedFrame>, duration: nat) {
    && (forall a, b :: 0 <= a < b < |F| ==> F[a].pts < F[b].pts)
    && (forall a :: 0 <= a < |F| ==> F[a].pts < duration)
  }

  ghost predicate Later(a: Result<Next, Failure>, b: Result<Next, Failure>) {
    a.Ok? && a.value.Frame? && b.Ok? && b.value.Frame? && a.value.frame.pts < b.value.frame.pts
  }

  /** A file that is opened and played in a loop, however its decoder groups the frames F of a pass:
      call i returns frame i mod |F|, as many times the duration of the file later as passes are over.
      If the file knows its duration, and the times in F increase up to it, they increase for ever. */
  method PlayFile(demux: Demuxer, decoder: Decoder, ghost F: seq<DecodedFrame>, n: nat)
    returns (results: seq<Result<Next, Failure>>)
    requires demux.script == decoder.script && demux.pass == decoder.pass == 0 && demux.pos == 0
    requires Plays(demux.script, F) && F != [] && GapsFit(demux.script, true, 4096)
    modifies demux, decoder
    ensures |results| == n
    ensures forall i :: 0 <= i < n ==>
              OnTimeline(results[i], F, if demux.duration.Some? then demux.duration.value else 0, i)
    ensures demux.duration.Some? && Ordered(F, demux.duration.value) ==>
              forall i, j :: 0 <= i < j < n ==> Later(results[i], results[j])
  {
    var p := new Pipeline(demux, decoder, true);
    ghost var d := p.Duration();
    ghost var trace;
    results, trace := Play(p, n);
    forall i | 0 <= i < n ensures OnTimeline(results[i], F, d, i) {
      PlayLooped(demux.script, F, d, 4096, trace, results, i);
    }
    if demux.duration.Some? && Ordered(F, d) {
      forall i, j | 0 <= i < j < n ensures Later(results[i], results[j]) {
        TimelineIncreases(F, d, i, j);
      }
    }
  }
}
