/** The thread that decodes a video, and the poller that takes its newest frame. The two meet
    under one lock: every method here is one critical section (or one stretch of the worker
    between two of them), and any interleaving of them is a run. Times are milliseconds. */
module VideoWorker {
  import opened Wrappers

  type Picture(!new)

  const IDLE_AFTER: nat := 400
  const DROP_LATE: nat := 80

  datatype Frame = Frame(generation: nat, data: Picture)
  datatype Decoded = Decoded(pts: nat, data: Picture)
  datatype Fetched = Next(frame: Decoded) | Ended | Failed(reason: string)

  /** The clock's reference point: wall time and pts. */
  datatype Origin = Origin(time: nat, pts: nat)

  /** Where the worker thread is; timed: when it looked whether its frame is due. */
  datatype Place =
    | Watching(slept: bool)
    | Fetching
    | Timing(frame: Decoded)
    | Waiting(frame: Decoded, due: nat, timed: nat)
    | Publishing(frame: Decoded, due: nat, timed: nat)
    | AtEnd
    | Exited

  /** A publish: when it was due, when the worker looked at that, when it went out. */
  datatype Publish = Publish(frame: Frame, pts: nat, origin: Origin, due: nat, timed: nat, at: nat)

  function Since(now: nat, then_: nat): nat {
    if now < then_ then 0 else now - then_
  }

  /** When a frame is due; scale: what playback speed does to pts differences. */
  function DueAt(scale: nat -> nat, o: Origin, pts: nat): nat {
    o.time + scale(Since(pts, o.pts))
  }

  /** A frame found more than DROP_LATE late is dropped. */
  predicate TooLate(due: nat, now: nat) {
    due + DROP_LATE < now
  }

  type Reply = Result<Option<Frame>, string>

  // ---- the two parties as a state machine ----

  /** clock: monotonic time. latest to ended are under the lock, sent is the poller's own,
      origin and place the worker's; published: everything published so far, in order. */
  datatype State = State(
    scale: nat -> nat, clock: nat, latest: Option<Frame>, generation: nat, watched: Option<nat>, quit: bool,
    error: Option<string>, ended: bool, sent: nat, origin: Option<Origin>, place: Place, published: seq<Publish>)
  {
    /** A poll is refused only while there is nothing but an error. */
    predicate Refuses() {
      error.Some? && generation == 0
    }

    function Answer(): Reply {
      if Refuses() then Err(error.value) else if generation == sent then Ok(None) else Ok(latest)
    }

    function Poll(now: nat): State {
      var s := this.(clock := now, watched := Some(now));
      if Refuses() || generation == sent then s else s.(sent := generation, latest := None)
    }

    function Quit(now: nat): State {
      this.(clock := now, quit := true)
    }

    function CheckWatched(now: nat): State
      requires place.Watching?
    {
      var s := this.(clock := now);
      if quit then s.(place := Exited)
      else if watched.Some? && Since(now, watched.value) < IDLE_AFTER then
        s.(place := Fetching, origin := if place.slept then None else origin)
      else s.(place := Watching(true))
    }

    function Fetch(now: nat, r: Fetched): State {
      var s := this.(clock := now);
      match r
      case Next(f) => s.(place := Timing(f))
      case Ended => s.(place := AtEnd, ended := true)
      case Failed(reason) => s.(place := Exited, error := Some(reason))
    }

    function Crash(now: nat): State {
      this.(clock := now, place := Exited, error := Some(if error.Some? then error.value else "decoder crashed"))
    }

    /** first: when the origin is set, if it wasn't. */
    function Time(first: nat, now: nat): State
      requires place.Timing?
    {
      var f := place.frame;
      var o := if origin.Some? then origin.value else Origin(first, f.pts);
      var due := DueAt(scale, o, f.pts);
      this.(clock := now, origin := Some(o),
            place := if due > now then Waiting(f, due, now)
                     else if TooLate(due, now) then Watching(false)
                     else Publishing(f, due, now))
    }

    function Wake(now: nat): State
      requires place.Waiting?
    {
      this.(clock := now,
            place := if quit then Exited
                     else if now < place.due then place
                     else Publishing(place.frame, place.due, place.timed))
    }

    function PublishFrame(now: nat): State
      requires place.Publishing? && origin.Some?
    {
      var frame := Frame(generation + 1, place.frame.data);
      this.(clock := now, generation := generation + 1, latest := Some(frame), place := Watching(false),
            published := published + [Publish(frame, place.frame.pts, origin.value, place.due, place.timed, now)])
    }

    function WaitForQuit(now: nat): State {
      this.(clock := now, place := if quit then Exited else place)
    }

    /** The worker's next stretch, wherever it is. */
    function Work(now: nat, fetched: Fetched, crashes: bool): State
      requires Valid()
    {
      match place
      case Watching(_) => CheckWatched(now)
      case Fetching => if crashes then Crash(now) else Fetch(now, fetched)
      case Timing(_) => Time(now, now)
      case Waiting(_, _, _) => Wake(now)
      case Publishing(_, _, _) => PublishFrame(now)
      case AtEnd => WaitForQuit(now)
      case Exited => this.(clock := now)
    }

    predicate Valid() {
      Handover() && OnTime() && PlaceRight()
    }

    /** A new frame is there exactly when the poller is behind, and it is the newest. */
    predicate Handover() {
      && sent <= generation && generation == |published|
      && (latest.Some? <==> sent < generation)
      && (latest.Some? ==> latest.value == published[generation - 1].frame)
      && (forall i :: 0 <= i < |published| ==> published[i].frame.generation == i + 1)
    }

    /** Nothing went out before it was due, nor if it was too late when the worker timed it. */
    predicate OnTime() {
      forall i :: 0 <= i < |published| ==> PublishOnTime(scale, published[i])
    }

    /** What the worker knows about the frame it holds. */
    predicate PlaceRight() {
      match place
      case Waiting(frame, due, timed) =>
        origin.Some? && due == DueAt(scale, origin.value, frame.pts) && timed < due && timed <= clock
      case Publishing(frame, due, timed) =>
        && origin.Some? && due == DueAt(scale, origin.value, frame.pts)
        && due <= clock && timed <= clock && !TooLate(due, timed)
      case Watching(_) => true
      case Fetching => true
      case Timing(_) => true
      case AtEnd => ended
      case Exited => true
    }
  }

  /** It was due when the difference to the origin's pts, scaled by the playback speed, had passed; it
      went out then or later, and was not more than 80 ms late when it was timed. */
  predicate PublishOnTime(scale: nat -> nat, p: Publish) {
    && p.due == p.origin.time + scale(if p.pts < p.origin.pts then 0 else p.pts - p.origin.pts)
    && p.due <= p.at && p.timed <= p.at && p.timed <= p.due + 80
  }

  function Opened(scale: nat -> nat, now: nat): State {
    State(scale, now, None, 0, None, false, None, false, 0, None, Watching(false), [])
  }

  // ---- the code ----

  class VideoSource {
    const scale: nat -> nat
    var clock: nat

    // under the lock
    var latest: Option<Frame>
    var generation: nat
    var watched: Option<nat>
    var quit: bool
    var error: Option<string>
    var ended: bool

    // the poller's own
    var sent: nat

    // the worker's own
    var origin: Option<Origin>
    var place: Place

    /** Everything published, in order. */
    ghost var published: seq<Publish>

    ghost function At(): State
      reads this
    {
      State(scale, clock, latest, generation, watched, quit, error, ended, sent, origin, place, published)
    }

    ghost predicate Valid()
      reads this
    {
      At().Valid()
    }

    constructor (scale: nat -> nat, now: nat)
      ensures Valid() && At() == Opened(scale, now)
    {
      this.scale, clock := scale, now;
      latest, generation, watched, quit, error, ended := None, 0, None, false, None, false;
      sent, origin, place, published := 0, None, Watching(false), [];
    }

    // ---- the poller ----

    /** The newest frame, once: afterwards nothing is waiting, and a frame is returned exactly
        if one was published since the last poll. */
    method Poll(now: nat) returns (r: Reply)
      requires Valid() && clock <= now
      modifies this`clock, this`watched, this`latest, this`sent
      ensures Valid() && At() == old(At()).Poll(now) && r == old(At()).Answer()
      ensures clock == now && watched == Some(now)
      ensures r.Err? <==> error.Some? && generation == 0
      ensures r.Ok? ==> sent == generation && latest == None
      ensures r.Ok? ==> (r.value.Some? <==> old(sent) < |published|)
      ensures r.Ok? && r.value.Some? ==> r.value.value == published[|published| - 1].frame
    {
      clock := now;
      watched := Some(now);
      if error.Some? && generation == 0 {
        return Err(error.value);
      }
      if generation == sent {
        return Ok(None);
      }
      sent := generation;
      r := Ok(latest);
      latest := None;
    }

    method Quit(now: nat)
      requires Valid() && clock <= now
      modifies this`clock, this`quit
      ensures Valid() && At() == old(At()).Quit(now) && clock == now && quit
    {
      clock, quit := now, true;
    }

    // ---- the worker ----

    /** Top of the loop: quit, sleep on, or go for a frame; after sleeping, playback resumes
        from the current position. */
    method CheckWatched(now: nat)
      requires Valid() && clock <= now && place.Watching?
      modifies this`clock, this`place, this`origin
      ensures Valid() && At() == old(At()).CheckWatched(now)
      ensures clock == now
      ensures place == if quit then Exited
                       else if watched.Some? && now < watched.value + 400 then Fetching
                       else Watching(true)
      ensures origin == if place.Fetching? && old(place).slept then None else old(origin)
    {
      clock := now;
      if quit {
        place := Exited;
      } else if watched.Some? && Since(now, watched.value) < IDLE_AFTER {
        if place.slept {
          origin := None;
        }
        place := Fetching;
      } else {
        place := Watching(true);
      }
    }

    /** The pipeline gives a frame, the end, or an error. */
    method Fetch(now: nat, r: Fetched)
      requires Valid() && clock <= now && place.Fetching?
      modifies this`clock, this`place, this`ended, this`error
      ensures Valid() && At() == old(At()).Fetch(now, r) && clock == now
      ensures r.Next? ==> place == Timing(r.frame) && ended == old(ended) && error == old(error)
      ensures r.Ended? ==> place == AtEnd && ended && error == old(error)
      ensures r.Failed? ==> place == Exited && ended == old(ended) && error == Some(r.reason)
    {
      clock := now;
      match r {
        case Next(f) => place := Timing(f);
        case Ended => ended, place := true, AtEnd;
        case Failed(reason) => error, place := Some(reason), Exited;
      }
    }

    /** When is the frame due? The first frame after a start or a sleep is due at once; a
        late one is dropped. */
    method Time(first: nat, now: nat)
      requires Valid() && clock <= first <= now && place.Timing?
      modifies this`clock, this`place, this`origin
      ensures Valid() && At() == old(At()).Time(first, now)
      ensures origin.Some? && (old(origin).Some? ==> origin == old(origin))
      ensures old(origin).None? ==> origin == Some(Origin(first, old(place).frame.pts))
      ensures var f, o := old(place).frame, origin.value;
              var due := o.time + scale(if f.pts < o.pts then 0 else f.pts - o.pts);
              && (now < due ==> place == Waiting(f, due, now))
              && (due <= now <= due + 80 ==> place == Publishing(f, due, now))
              && (due + 80 < now ==> place == Watching(false))
    {
      clock := now;
      var f := place.frame;
      if origin.None? {
        origin := Some(Origin(first, f.pts));
      }
      var due := DueAt(scale, origin.value, f.pts);
      if due > now {
        place := Waiting(f, due, now);
      } else if now - due > DROP_LATE {
        place := Watching(false);
      } else {
        place := Publishing(f, due, now);
      }
    }

    /** Wakes up while waiting for the display time. However late that is, the frame is not
        timed again. */
    method Wake(now: nat)
      requires Valid() && clock <= now && place.Waiting?
      modifies this`clock, this`place
      ensures Valid() && At() == old(At()).Wake(now)
      ensures clock == now
      ensures place == if quit then Exited
                       else if now < old(place).due then old(place)
                       else Publishing(old(place).frame, old(place).due, old(place).timed)
    {
      clock := now;
      if quit {
        place := Exited;
      } else if place.due <= now {
        place := Publishing(place.frame, place.due, place.timed);
      }
    }

    method PublishFrame(now: nat)
      requires Valid() && clock <= now && place.Publishing?
      modifies this`clock, this`place, this`generation, this`latest, this`published
      ensures Valid() && At() == old(At()).PublishFrame(now)
      ensures latest == Some(Frame(|published|, old(place).frame.data)) && |published| == |old(published)| + 1
      ensures clock == now && place == Watching(false) && generation == |published|
      ensures published == old(published) +
                [Publish(latest.value, old(place).frame.pts, origin.value, old(place).due, old(place).timed, now)]
    {
      clock := now;
      generation := generation + 1;
      var frame := Frame(generation, place.frame.data);
      latest := Some(frame);
      published := published + [Publish(frame, place.frame.pts, origin.value, place.due, place.timed, now)];
      place := Watching(false);
    }

    /** The end of a video that doesn't loop: the last frame stays until quit. */
    method WaitForQuit(now: nat)
      requires Valid() && clock <= now && place.AtEnd?
      modifies this`clock, this`place
      ensures Valid() && At() == old(At()).WaitForQuit(now)
      ensures clock == now && place == if quit then Exited else AtEnd
    {
      clock := now;
      if quit {
        place := Exited;
      }
    }

    /** The decoder crashed: caught at the top of the thread. */
    method Crash(now: nat)
      requires Valid() && clock <= now && place.Fetching?
      modifies this`clock, this`place, this`error
      ensures Valid() && At() == old(At()).Crash(now)
      ensures clock == now && place == Exited
      ensures error == if old(error).Some? then old(error) else Some("decoder crashed")
    {
      clock := now;
      if error.None? {
        error := Some("decoder crashed");
      }
      place := Exited;
    }

    method Idle(now: nat)
      requires Valid() && clock <= now && place.Exited?
      modifies this`clock
      ensures Valid() && At() == old(At()).(clock := now)
    {
      clock := now;
    }
  }

  // ---- runs ----

  /** A schedule: who goes next, how much later, and what the pipeline gives if asked. */
  datatype Turn = Turn(who: Actor, later: nat, fetched: Fetched)
  datatype Actor = Poller | Dropper | Worker | CrashingWorker

  function Step(s: State, t: Turn): State
    requires s.Valid()
  {
    var now := s.clock + t.later;
    match t.who
    case Poller => s.Poll(now)
    case Dropper => s.Quit(now)
    case Worker => s.Work(now, t.fetched, false)
    case CrashingWorker => s.Work(now, t.fetched, true)
  }

  /** The state before every turn, and after the last. */
  ghost predicate Follows(trace: seq<State>, schedule: seq<Turn>) {
    && |trace| == |schedule| + 1 && (forall n :: 0 <= n <= |schedule| ==> trace[n].Valid())
    && forall n :: 0 <= n < |schedule| ==> trace[n + 1] == Step(trace[n], schedule[n])
  }

  /** The n-th turn is a poll that is answered. */
  predicate Asks(trace: seq<State>, schedule: seq<Turn>, n: nat)
    requires n < |schedule| && n < |trace|
  {
    schedule[n].who.Poller? && !trace[n].Refuses()
  }

  /** How much was published at the last answered poll of the first n turns; what had been
      polled before them, if there is none. */
  function CountAtLastPoll(trace: seq<State>, schedule: seq<Turn>, n: nat): nat
    requires n <= |schedule| < |trace|
  {
    if n == 0 then trace[0].sent
    else if Asks(trace, schedule, n - 1) then |trace[n - 1].published|
    else CountAtLastPoll(trace, schedule, n - 1)
  }

  /** What a turn does to what is published and polled. */
  predicate Grown(s: State, t: Turn, after: State) {
    && s.published <= after.published && s.sent <= after.sent
    && after.sent == if t.who.Poller? && !s.Refuses() then |s.published| else s.sent
  }

  lemma StepGrows(s: State, t: Turn)
    requires s.Valid()
    ensures Grown(s, t, Step(s, t))
  {
  }

  ghost predicate GrowsAlong(trace: seq<State>, schedule: seq<Turn>) {
    |trace| == |schedule| + 1 && forall n :: 0 <= n < |schedule| ==> Grown(trace[n], schedule[n], trace[n + 1])
  }

  lemma FollowsGrows(trace: seq<State>, schedule: seq<Turn>)
    requires Follows(trace, schedule)
    ensures GrowsAlong(trace, schedule)
  {
    forall n | 0 <= n < |schedule| ensures Grown(trace[n], schedule[n], trace[n + 1]) {
      StepGrows(trace[n], schedule[n]);
    }
  }

  lemma {:induction false} SentIsLastPoll(trace: seq<State>, schedule: seq<Turn>, n: nat)
    requires GrowsAlong(trace, schedule) && n <= |schedule|
    ensures trace[n].sent == CountAtLastPoll(trace, schedule, n)
  {
    if n > 0 {
      SentIsLastPoll(trace, schedule, n - 1);
      assert Grown(trace[n - 1], schedule[n - 1], trace[n]);
    }
  }

  lemma {:induction false} SentGrows(trace: seq<State>, schedule: seq<Turn>, m: nat, n: nat)
    requires GrowsAlong(trace, schedule) && m <= n <= |schedule|
    ensures trace[m].sent <= trace[n].sent
  {
    if m < n {
      SentGrows(trace, schedule, m, n - 1);
      assert Grown(trace[n - 1], schedule[n - 1], trace[n]);
    }
  }

  /** What a turn answers: polls only. */
  function Answered(s: State, t: Turn): Option<Reply> {
    if t.who.Poller? then Some(s.Answer()) else None
  }

  /** The frame that turn n hands out. */
  function Got(trace: seq<State>, schedule: seq<Turn>, n: nat): Option<Frame>
    requires n < |schedule| < |trace|
  {
    var a := Answered(trace[n], schedule[n]);
    if a.Some? && a.value.Ok? then a.value.value else None
  }

  /** No frame is lost and none comes twice: an answered poll hands out a frame if and only if
      more is published than at the last one, and then it is the newest. */
  lemma PollsGetTheNewest(trace: seq<State>, schedule: seq<Turn>, n: nat)
    requires Follows(trace, schedule) && n < |schedule| && Asks(trace, schedule, n)
    ensures var count := |trace[n].published|;
            && (Got(trace, schedule, n).Some? <==> count > CountAtLastPoll(trace, schedule, n))
            && (Got(trace, schedule, n).Some? ==>
                  && Got(trace, schedule, n).value == trace[n].published[count - 1].frame
                  && Got(trace, schedule, n).value.generation == count)
  {
    FollowsGrows(trace, schedule);
    SentIsLastPoll(trace, schedule, n);
  }

  lemma PollsIncrease(trace: seq<State>, schedule: seq<Turn>, m: nat, n: nat)
    requires Follows(trace, schedule) && m < n < |schedule|
    requires Got(trace, schedule, m).Some? && Got(trace, schedule, n).Some?
    ensures Got(trace, schedule, m).value.generation < Got(trace, schedule, n).value.generation
  {
    FollowsGrows(trace, schedule);
    assert Grown(trace[m], schedule[m], trace[m + 1]);
    SentGrows(trace, schedule, m + 1, n);
  }

  /** The worker's next stretch, wherever it is. */
  method WorkerStep(v: VideoSource, now: nat, fetched: Fetched, crashes: bool)
    requires v.Valid() && v.clock <= now
    modifies v
    ensures v.Valid() && v.At() == old(v.At()).Work(now, fetched, crashes)
  {
    match v.place {
      case Watching(_) => v.CheckWatched(now);
      case Fetching =>
        if crashes {
          v.Crash(now);
        } else {
          v.Fetch(now, fetched);
        }
      case Timing(_) => v.Time(now, now);
      case Waiting(_, _, _) => v.Wake(now);
      case Publishing(_, _, _) => v.PublishFrame(now);
      case AtEnd => v.WaitForQuit(now);
      case Exited => v.Idle(now);
    }
  }

  /** One turn of the schedule. */
  method TakeTurn(v: VideoSource, t: Turn) returns (r: Option<Reply>)
    requires v.Valid()
    modifies v
    ensures v.Valid() && v.At() == Step(old(v.At()), t) && r == Answered(old(v.At()), t)
  {
    r := None;
    var now := v.clock + t.later;
    match t.who {
      case Poller =>
        var reply := v.Poll(now);
        r := Some(reply);
      case Dropper => v.Quit(now);
      case Worker => WorkerStep(v, now, t.fetched, false);
      case CrashingWorker => WorkerStep(v, now, t.fetched, true);
    }
  }

  /** What holds of turn n in every interleaving: a poll is refused exactly while there is
      nothing but an error; else it hands out a frame exactly if more is published than at the
      last answered poll, the newest one, newer than all handed out before. */
  ghost predicate AnswersRight(trace: seq<State>, schedule: seq<Turn>, n: nat, r: Option<Reply>)
    requires n < |schedule| < |trace|
  {
    var s := trace[n];
    && (r.Some? <==> schedule[n].who.Poller?)
    && (r.Some? ==> (r.value.Err? <==> s.error.Some? && |s.published| == 0))
    && (r.Some? && r.value.Ok? ==>
          && (r.value.value.Some? <==> |s.published| > CountAtLastPoll(trace, schedule, n))
          && (r.value.value.Some? ==>
                r.value.value.value == s.published[|s.published| - 1].frame &&
                r.value.value.value.generation == |s.published|))
  }

  lemma FollowsMore(trace: seq<State>, schedule: seq<Turn>, n: nat, next: State)
    requires n < |schedule| && Follows(trace, schedule[..n]) && next.Valid() && next == Step(trace[n], schedule[n])
    ensures Follows(trace + [next], schedule[..n + 1])
  {
    var done := schedule[..n + 1];
    assert done[..n] == schedule[..n];
    forall m | 0 <= m <= n ensures (trace + [next])[m + 1] == Step((trace + [next])[m], done[m]) {
      assert m < n ==> schedule[..n][m] == done[m];
    }
  }

  /** Any interleaving. Nothing is ever published before it is due, nor if it was more than
      DROP_LATE late when the worker timed it. */
  method Run(v: VideoSource, schedule: seq<Turn>) returns (got: seq<Option<Reply>>, ghost trace: seq<State>)
    requires v.Valid()
    modifies v
    ensures v.Valid() && |got| == |schedule| && Follows(trace, schedule)
    ensures trace[0] == old(v.At()) && trace[|schedule|] == v.At()
    ensures forall n :: 0 <= n < |schedule| ==> AnswersRight(trace, schedule, n, got[n])
    ensures forall m, n :: 0 <= m < n < |schedule| && Got(trace, schedule, m).Some? && Got(trace, schedule, n).Some? ==>
              Got(trace, schedule, m).value.generation < Got(trace, schedule, n).value.generation
    ensures forall i :: 0 <= i < |v.published| ==> PublishOnTime(v.scale, v.published[i])
  {
    got := [];
    trace := [v.At()];
    while |got| < |schedule|
      invariant v.Valid() && Went(trace, schedule, got)
      invariant trace[0] == old(v.At()) && trace[|got|] == v.At()
    {
      var r := TakeTurn(v, schedule[|got|]);
      WentOn(trace, schedule, got, v.At(), r);
      got, trace := got + [r], trace + [v.At()];
    }
    WentRight(trace, schedule, got);
  }

  /** The first turns were taken, and answered. */
  ghost predicate Went(trace: seq<State>, schedule: seq<Turn>, got: seq<Option<Reply>>) {
    && |got| <= |schedule| && Follows(trace, schedule[..|got|])
    && forall m :: 0 <= m < |got| ==> got[m] == Answered(trace[m], schedule[m])
  }

  lemma WentOn(trace: seq<State>, schedule: seq<Turn>, got: seq<Option<Reply>>, next: State, r: Option<Reply>)
    requires Went(trace, schedule, got) && |got| < |schedule| && next.Valid()
    requires next == Step(trace[|got|], schedule[|got|]) && r == Answered(trace[|got|], schedule[|got|])
    ensures Went(trace + [next], schedule, got + [r])
  {
    FollowsMore(trace, schedule, |got|, next);
  }

  lemma WentRight(trace: seq<State>, schedule: seq<Turn>, got: seq<Option<Reply>>)
    requires Went(trace, schedule, got) && |got| == |schedule|
    ensures Follows(trace, schedule)
    ensures forall n :: 0 <= n < |schedule| ==> AnswersRight(trace, schedule, n, got[n])
    ensures forall m, n :: 0 <= m < n < |schedule| && Got(trace, schedule, m).Some? && Got(trace, schedule, n).Some? ==>
              Got(trace, schedule, m).value.generation < Got(trace, schedule, n).value.generation
  {
    assert schedule[..|got|] == schedule;
    forall n | 0 <= n < |schedule| ensures AnswersRight(trace, schedule, n, got[n]) {
      AnswerRight(trace, schedule, n);
    }
    forall m, n | 0 <= m < n < |schedule| && Got(trace, schedule, m).Some? && Got(trace, schedule, n).Some?
      ensures Got(trace, schedule, m).value.generation < Got(trace, schedule, n).value.generation
    {
      PollsIncrease(trace, schedule, m, n);
    }
  }

  lemma AnswerRight(trace: seq<State>, schedule: seq<Turn>, n: nat)
    requires Follows(trace, schedule) && n < |schedule|
    ensures AnswersRight(trace, schedule, n, Answered(trace[n], schedule[n]))
  {
    assert trace[n].Valid();
    if Asks(trace, schedule, n) {
      PollsGetTheNewest(trace, schedule, n);
    }
  }

  // ---- lateness ----

  /** The frame being timed is published in the end: the worker's own turns at now (timing it)
      and at later, with one more if it had to wait. */
  function TimedTurns(s: State, now: nat, later: nat): State
    requires s.Valid() && s.place.Timing? && s.clock <= now <= later
  {
    var timed := s.Time(now, now);
    if timed.place.Watching? then timed
    else if timed.place.Publishing? then timed.PublishFrame(later)
    else
      var woken := timed.Wake(later);
      if woken.place.Publishing? then woken.PublishFrame(later) else woken
  }

  /** Exactly which frames go out, and when: the one timed at now goes out at any later moment
      from which the worker runs on, no matter how late, if and only if it is due by then and
      was not more than DROP_LATE late at now. So a frame can go out more than DROP_LATE late,
      and does exactly if it was not yet that late when it was timed. */
  lemma GoesOutExactly(s: State, now: nat, later: nat)
    requires s.Valid() && s.place.Timing? && !s.quit && s.clock <= now <= later
    ensures var o := if s.origin.Some? then s.origin.value else Origin(now, s.place.frame.pts);
            var pts := s.place.frame.pts;
            var due := o.time + s.scale(if pts < o.pts then 0 else pts - o.pts);
            var after := TimedTurns(s, now, later);
            && (after.published != s.published <==> due <= later && now <= due + 80)
            && (after.published != s.published ==>
                  after.published == s.published +
                    [Publish(Frame(s.generation + 1, s.place.frame.data), s.place.frame.pts, o, due, now, later)])
            && (due + 80 < later ==> (after.published != s.published <==> now <= due + 80))
  {
    var published := TimedTurns(s, now, later).published;
    assert published != s.published ==> |published| == |s.published| + 1;
  }

  /** A frame that goes out too late: due at 10, timed at 0, woken at 1000; at twice the speed one
      that is due then is 20 into the video. */
  lemma LateFrame(data: Picture)
    ensures var s := Opened((d: nat) => d, 0).(watched := Some(0), origin := Some(Origin(0, 0)),
            place := Timing(Decoded(10, data)));
            && s.Valid()
            && var after := TimedTurns(s, 0, 1_000);
               |after.published| == 1 && after.published[0].due == 10 && after.published[0].at == 1_000
    ensures var s := Opened((d: nat) => d / 2, 0).(watched := Some(0), origin := Some(Origin(0, 0)),
            place := Timing(Decoded(20, data)));
            && s.Valid()
            && var after := TimedTurns(s, 0, 1_000);
               |after.published| == 1 && after.published[0].due == 10 && after.published[0].at == 1_000
  {
  }
}
