/** The covers in use, by file, speed and looping. Loader threads open them and finish
    whenever they like; the render path must never wait for one, and none may
    be lost. Instants and durations are milliseconds. */
module Registry {
  import opened Wrappers

  /** What is in a picture. */
  type Content(!new)

  const MISSING_RETRY: nat := 1_000
  const EVICT_AFTER: nat := 30_000

  datatype Frame = Frame(generation: nat, content: Content)
  datatype Kind = Still | Animated

  /** speed as its bit pattern: keys compare it bitwise. */
  datatype Play = Play(path: string, speed: nat, looped: bool)

  datatype Settings = Settings(pathCover: string, looped: bool, speed: nat, backend: nat, gpu: Option<string>) {
    function DefaultPlay(): Play {
      Play(pathCover, speed, looped)
    }
  }

  /** A source made by loader `loader`; the generations it emits strictly increase. */
  datatype Source = Source(loader: nat, kind: Kind, lastGeneration: nat)

  datatype LoadResult =
    | Loaded(kind: Kind, first: Option<Frame>)
    | FileMissing
    | Broken

  /** A loader thread: still opening, result sent, run to its end, or never started. */
  datatype Thread =
    | Running
    | Sent(result: LoadResult)
    | Done(result: LoadResult)
    | NeverStarted
  {
    /** Joining it doesn't wait. */
    predicate Finished() {
      Done? || NeverStarted?
    }

    /** One step further; result: what an open that was running delivers. */
    function Further(result: LoadResult): Thread {
      match this
      case Running => Sent(result)
      case Sent(r) => Done(r)
      case Done(r) => Done(r)
      case NeverStarted => NeverStarted
    }
  }

  datatype State =
    | Opening(loader: nat, retry: bool)
    | Ready(src: Source)
    | Missing(retryAt: nat)
    | Failed

  datatype Cover = Cover(id: nat, state: State, current: Option<Frame>, polledIn: nat, lastUsed: nat)

  datatype CoverView = CoverView(id: nat, frame: Frame)

  /** What a poll of a source brings: a frame some generations later, nothing new, an error. */
  datatype Polled = NewFrame(skipped: nat, content: Content) | Unchanged | PollError

  /** What the world answers during one resolve: how far a thread started in it got,
      whether the file exists, what the source has. */
  datatype World = World(started: Thread, present: bool, polled: Polled)

  /** A cover after its loader's result was picked up. */
  function Delivered(c: Cover, t: Thread, now: nat): (r: Cover)
    ensures r.id == c.id
  {
    if t.Running? then c
    else if t.NeverStarted? then c.(state := Failed)
    else
      match t.result
      case Loaded(kind, first) =>
        var generation := if first.Some? then first.value.generation else 0;
        c.(state := Ready(Source(if c.state.Opening? then c.state.loader else 0, kind, generation)),
           current := if first.Some? then first else c.current)
      case FileMissing => c.(state := Missing(now + MISSING_RETRY))
      case Broken => c.(state := Failed)
  }

  /** A ready cover after a poll in frame frameNo. */
  function AfterPoll(c: Cover, frameNo: nat, polled: Polled): (r: Cover)
    requires c.state.Ready?
    ensures r.id == c.id && !r.state.Opening?
  {
    var c := c.(polledIn := frameNo);
    match polled
    case NewFrame(skipped, content) =>
      var g := c.state.src.lastGeneration + 1 + skipped;
      c.(state := Ready(c.state.src.(lastGeneration := g)), current := Some(Frame(g, content)))
    case Unchanged => c
    case PollError => c.(state := Failed, current := None)
  }

  /** A missing cover whose backoff is over: opened again with loader l if the file is
      there, put off otherwise. */
  function Retried(c: Cover, now: nat, l: nat, present: bool): (r: Cover)
    ensures r.id == c.id
  {
    if c.state.Missing? && now >= c.state.retryAt then
      if present then c.(state := Opening(l, true)) else c.(state := Missing(now + MISSING_RETRY))
    else c
  }

  /** First a missing file is looked for; l: the next free loader. */
  function Looked(c: Cover, now: nat, l: nat, world: World): (r: Cover)
    ensures r.id == c.id
  {
    Retried(c.(lastUsed := now), now, l, world.present)
  }

  /** Then the loader's result is picked up, if there is one. */
  function Received(c: Cover, t: Thread, now: nat): (r: Cover)
    ensures r.id == c.id
  {
    if c.state.Opening? then Delivered(c, t, now) else c
  }

  /** Then a ready source is polled, once a frame. */
  function Renewed(c: Cover, frameNo: nat, world: World): (r: Cover)
    ensures r.id == c.id
  {
    if c.state.Ready? && c.polledIn != frameNo then AfterPoll(c, frameNo, world.polled) else c
  }

  /** The thread a resolve asks: t, the loader's the cover had, or the one it starts. */
  function AskedThread(c: Cover, t: Thread, world: World): Thread {
    if c.state.Missing? then world.started else t
  }

  /** Everything resolve does to a cover. */
  function Advanced(c: Cover, t: Thread, now: nat, frameNo: nat, l: nat, world: World): (r: Cover)
    ensures r.id == c.id
  {
    Renewed(Received(Looked(c, now, l, world), AskedThread(c, t, world), now), frameNo, world)
  }

  function ViewOf(c: Cover): Option<CoverView> {
    if c.current.Some? then Some(CoverView(c.id, c.current.value)) else None
  }

  /** A missing file is left alone until its backoff is over, a failed cover stays failed
      and shows nothing, and a cover whose loader is still at work is not waited for. */
  lemma AdvanceSettles(c: Cover, t: Thread, now: nat, frameNo: nat, l: nat, world: World)
    ensures (c.state.Missing? && now < c.state.retryAt) || c.state.Failed? || (c.state.Opening? && t.Running?) ==>
              Advanced(c, t, now, frameNo, l, world) == c.(lastUsed := now)
  {
  }

  /** Within one frame a ready cover is polled once: resolving it again changes nothing. */
  lemma PolledOncePerFrame(c: Cover, t: Thread, now: nat, frameNo: nat, l: nat, w1: World, w2: World)
    requires Advanced(c, t, now, frameNo, l, w1).state.Ready?
    ensures var c1 := Advanced(c, t, now, frameNo, l, w1); Advanced(c1, t, now, frameNo, l, w2) == c1
  {
  }

  /** The first resolve after a source and its first frame were delivered shows a picture:
      that frame, or a newer one if the source already has it. */
  lemma DeliveredIsShown(c: Cover, t: Thread, now: nat, frameNo: nat, l: nat, world: World)
    requires c.state.Opening? && (t.Sent? || t.Done?) && t.result.Loaded? && t.result.first.Some? &&
             !world.polled.PollError?
    ensures var view := ViewOf(Advanced(c, t, now, frameNo, l, world));
            && view.Some? && view.value.id == c.id
            && (view.value.frame == t.result.first.value ||
                view.value.frame.generation > t.result.first.value.generation)
            && (c.polledIn != frameNo && world.polled.NewFrame? ==> view.value.frame.content == world.polled.content)
  {
  }

  lemma MissingBacksOff(c: Cover, t: Thread, now: nat, frameNo: nat, l: nat, world: World)
    ensures var c' := Advanced(c, t, now, frameNo, l, world);
            c'.state.Missing? ==> if c.state.Missing? && now < c.state.retryAt then c'.state == c.state
                                  else c'.state.retryAt == now + MISSING_RETRY
  {
  }

  // ---- one cover over a run of resolves ----

  /** One resolve: what its loader's thread is then, when, in which frame, what the world says. */
  datatype Resolving = Resolving(thread: Thread, now: nat, frameNo: nat, l: nat, world: World)

  /** The cover after the first n resolves. */
  function AfterResolves(c: Cover, rs: seq<Resolving>, n: nat): Cover
    requires n <= |rs|
  {
    if n == 0 then c
    else
      var r := rs[n - 1];
      Advanced(AfterResolves(c, rs, n - 1), r.thread, r.now, r.frameNo, r.l, r.world)
  }

  /** The thread a resolve asks for its result: the loader of an opening cover, or the one it starts
      for a file that is there again. */
  ghost function Asked(c: Cover, r: Resolving): Option<Thread> {
    if c.state.Opening? then Some(r.thread)
    else if c.state.Missing? && r.now >= c.state.retryAt && r.world.present then Some(r.world.started)
    else None
  }

  ghost predicate Gives(t: Option<Thread>, result: LoadResult) {
    t == Some(Sent(result)) || t == Some(Done(result))
  }

  ghost predicate GivesSource(t: Option<Thread>) {
    t.Some? && (t.value.Sent? || t.value.Done?) && t.value.result.Loaded?
  }

  /** The loader never started or could not open the file, or the source, ready or just delivered
      and not yet polled in this frame, reports an error. */
  ghost predicate FailsIn(c: Cover, r: Resolving) {
    || Asked(c, r) == Some(NeverStarted)
    || Gives(Asked(c, r), Broken)
    || (r.world.polled.PollError? && c.polledIn != r.frameNo && (c.state.Ready? || GivesSource(Asked(c, r))))
  }

  /** A source as it is delivered, before its poll. */
  ghost function FirstSource(c: Cover, r: Resolving): Source
    requires c.state.Ready? || GivesSource(Asked(c, r))
  {
    if c.state.Ready? then c.state.src
    else
      var result := Asked(c, r).value.result;
      Source(if c.state.Opening? then c.state.loader else r.l, result.kind,
             if result.first.Some? then result.first.value.generation else 0)
  }

  /** What a resolve makes of a cover; only a ready one has a picture. Failed, it stays that. When it
      fails, no picture is left. A missing file is looked for again a second later. A source that is
      delivered makes the cover ready, with the source's first frame, and is polled at once. */
  ghost predicate Becomes(c: Cover, r: Resolving, c': Cover) {
    && c'.id == c.id && c'.lastUsed == r.now
    && if c.state.Failed? then c'.state == Failed && c'.current == c.current
       else if FailsIn(c, r) then c'.state == Failed && c'.current.None?
       else if c.state.Ready? || GivesSource(Asked(c, r)) then
         var src := FirstSource(c, r);
         && c'.polledIn == r.frameNo
         && if r.world.polled.NewFrame? && c.polledIn != r.frameNo
            then && c'.state == Ready(src.(lastGeneration := src.lastGeneration + 1 + r.world.polled.skipped))
                 && c'.current == Some(Frame(src.lastGeneration + 1 + r.world.polled.skipped, r.world.polled.content))
            else && c'.state == Ready(src)
                 && c'.current == if c.state.Ready? then c.current else Asked(c, r).value.result.first
       else
         && c'.current.None? && c'.polledIn == c.polledIn
         && if Asked(c, r) == Some(Running)
            then c'.state == if c.state.Opening? then c.state else Opening(r.l, true)
            else if c.state.Missing? && r.now < c.state.retryAt then c'.state == c.state
            else c'.state == Missing(r.now + 1_000)
  }

  ghost predicate PictureIfReady(c: Cover) {
    c.current.Some? ==> c.state.Ready?
  }

  lemma ResolveBecomes(c: Cover, r: Resolving)
    requires PictureIfReady(c)
    ensures var c' := Advanced(c, r.thread, r.now, r.frameNo, r.l, r.world); Becomes(c, r, c') && PictureIfReady(c')
  {
  }

  /** Every resolve of a run does that. */
  lemma {:induction false} ResolvesBecome(c: Cover, rs: seq<Resolving>, n: nat)
    requires PictureIfReady(c) && n < |rs|
    ensures Becomes(AfterResolves(c, rs, n), rs[n], AfterResolves(c, rs, n + 1))
    ensures PictureIfReady(AfterResolves(c, rs, n)) && PictureIfReady(AfterResolves(c, rs, n + 1))
  {
    if n > 0 {
      ResolvesBecome(c, rs, n - 1);
    }
    ResolveBecomes(AfterResolves(c, rs, n), rs[n]);
  }

  lemma BecomesFailed(c: Cover, r: Resolving, c': Cover)
    requires Becomes(c, r, c')
    ensures c'.state.Failed? <==> c.state.Failed? || FailsIn(c, r)
  {
  }

  ghost predicate FailsAt(c: Cover, rs: seq<Resolving>, i: nat)
    requires i < |rs|
  {
    FailsIn(AfterResolves(c, rs, i), rs[i])
  }

  /** Over any run of resolves a cover has failed exactly if it had at the start, or one of them
      found that its loader could not start or open the file, or that its source reports an error;
      and then it shows nothing. */
  lemma {:induction false} FailedExactly(c: Cover, rs: seq<Resolving>, n: nat)
    requires PictureIfReady(c) && n <= |rs|
    ensures AfterResolves(c, rs, n).state.Failed? <==>
              c.state.Failed? || exists i :: 0 <= i < n && FailsAt(c, rs, i)
    ensures AfterResolves(c, rs, n).state.Failed? ==> ViewOf(AfterResolves(c, rs, n)) == None
  {
    if n > 0 {
      FailedExactly(c, rs, n - 1);
      ResolvesBecome(c, rs, n - 1);
      BecomesFailed(AfterResolves(c, rs, n - 1), rs[n - 1], AfterResolves(c, rs, n));
      assert AfterResolves(c, rs, n).state.Failed? <==>
               AfterResolves(c, rs, n - 1).state.Failed? || FailsAt(c, rs, n - 1);
    }
  }

  ghost predicate TimeGoesOn(rs: seq<Resolving>) {
    forall i, j :: 0 <= i <= j < |rs| ==> rs[i].now <= rs[j].now
  }

  /** The n-th resolve asks the file system whether the file is there. */
  predicate Looks(c: Cover, rs: seq<Resolving>, n: nat)
    requires n < |rs|
  {
    var before := AfterResolves(c, rs, n);
    before.state.Missing? && rs[n].now >= before.state.retryAt
  }

  /** After a look, whatever opens and goes missing in between, the next one is put off. */
  lemma {:induction false} PutOff(c: Cover, rs: seq<Resolving>, i: nat, j: nat)
    requires i < j <= |rs| && TimeGoesOn(rs) && Looks(c, rs, i)
    ensures var after := AfterResolves(c, rs, j);
            after.state.Missing? ==> after.state.retryAt >= rs[i].now + MISSING_RETRY
  {
    var r := rs[j - 1];
    var before := AfterResolves(c, rs, j - 1);
    MissingBacksOff(before, r.thread, r.now, r.frameNo, r.l, r.world);
    if i < j - 1 {
      PutOff(c, rs, i, j - 1);
    }
  }

  /** The file system is asked at most once in MISSING_RETRY, over any run of resolves with
      any outcomes in between. */
  lemma LooksAreApart(c: Cover, rs: seq<Resolving>, i: nat, j: nat)
    requires i < j < |rs| && TimeGoesOn(rs) && Looks(c, rs, i) && Looks(c, rs, j)
    ensures rs[j].now >= rs[i].now + 1_000
  {
    PutOff(c, rs, i, j);
  }

  /** A cover that failed stays failed and shows nothing, however often it is resolved. */
  lemma {:induction false} FailedForGood(c: Cover, rs: seq<Resolving>, i: nat, j: nat)
    requires i <= j <= |rs|
    requires AfterResolves(c, rs, i).state.Failed? && AfterResolves(c, rs, i).current.None?
    ensures AfterResolves(c, rs, j).state.Failed? && ViewOf(AfterResolves(c, rs, j)) == None
  {
    if i < j {
      FailedForGood(c, rs, i, j - 1);
      var r := rs[j - 1];
      AdvanceSettles(AfterResolves(c, rs, j - 1), r.thread, r.now, r.frameNo, r.l, r.world);
    }
  }

  // ---- the registry as a value ----

  /** A cover that starts opening with loader l. */
  function NewCover(id: nat, l: nat, now: nat): (c: Cover)
    ensures c.id == id && c.state.Opening? && c.state.loader == l && c.current.None?
  {
    Cover(id, Opening(l, false), None, 0, now)
  }

  /** Everything the covers of a registry depend on. */
  datatype Core = Core(
    settings: Option<Settings>, fallback: Settings, epoch: nat, covers: map<Play, Cover>, nextId: nat, frameNo: nat,
    nextLoader: nat, threads: map<nat, Thread>)
  {
    function CurrentSettings(): Settings {
      if settings.Some? then settings.value else fallback
    }

    predicate IsStale(play: Play, c: Cover, now: nat) {
      play != CurrentSettings().DefaultPlay() && Unused(c, now) >= EVICT_AFTER
    }

    /** A new cover for play starts opening. */
    function Start(play: Play, now: nat, started: Thread): Core {
      this.(covers := covers[play := NewCover(nextId, nextLoader, now)],
            nextId := nextId + 1, nextLoader := nextLoader + 1, threads := threads[nextLoader := started])
    }

    function Warm(play: Play, now: nat, started: Thread): Core {
      if play.path == "" || play in covers then this else Start(play, now, started)
    }

    function NewEpoch(new_: Settings): Core {
      this.(settings := Some(new_), epoch := epoch + 1, covers := map[])
    }

    function SetSettings(new_: Settings, now: nat, started: Thread): Core {
      if settings == Some(new_) then this else NewEpoch(new_).Warm(new_.DefaultPlay(), now, started)
    }

    function EndFrame(now: nat): Core {
      this.(covers := covers - set p | p in covers && IsStale(p, covers[p], now))
    }

    function ThreadRuns(l: nat, result: LoadResult): Core
      requires l in threads
    {
      this.(threads := threads[l := threads[l].Further(result)])
    }

    function LoaderFor(play: Play): Thread {
      if play in covers && covers[play].state.Opening? && covers[play].state.loader in threads
      then threads[covers[play].state.loader] else NeverStarted
    }

    /** The cover is there, opening if it is new. */
    function Ensure(play: Play, now: nat, started: Thread): Core {
      if play in covers then this else Start(play, now, started)
    }

    /** A missing file is looked for: a loader starts if it is there. */
    function Look(play: Play, now: nat, world: World): Core
      requires play in covers
    {
      var c := covers[play];
      if c.state.Missing? && now >= c.state.retryAt && world.present
      then this.(nextLoader := nextLoader + 1, threads := threads[nextLoader := world.started]) else this
    }

    /** One resolve of a cover that is there. */
    function Advance(play: Play, now: nat, world: World): Core
      requires play in covers
    {
      Look(play, now, world).(
        covers := covers[play := Advanced(covers[play], LoaderFor(play), now, frameNo, nextLoader, world)])
    }

    function Resolve(play: Play, now: nat, world: World): Core {
      if play.path == "" then this
      else
        var there := Ensure(play, now, world.started);
        assert play in there.covers;
        there.Advance(play, now, world)
    }

    function View(play: Play): Option<CoverView> {
      if play.path != "" && play in covers then ViewOf(covers[play]) else None
    }

    /** Some cover may still bring new pictures by itself. */
    ghost predicate Animates(now: nat) {
      exists p :: p in covers && IsLive(covers[p], now)
    }
  }

  /** A resolve of the registry: it starts a cover that isn't there under the next id, makes of it
      what a resolve makes of a cover, with the thread its loader is, and shows its picture. Other
      covers, the settings and the frame stay. */
  lemma ResolveInNumbers(a: Core, play: Play, now: nat, world: World)
    requires forall p :: p in a.covers ==> PictureIfReady(a.covers[p])
    requires forall p :: p in a.covers && a.covers[p].state.Opening? ==> a.covers[p].state.loader in a.threads
    ensures var b := a.Resolve(play, now, world);
            if play.path == "" then b == a && b.View(play).None?
            else
              var isNew := play !in a.covers;
              var c := if isNew then Cover(a.nextId, Opening(a.nextLoader, false), None, 0, now) else a.covers[play];
              var t := if isNew then world.started
                       else if c.state.Opening? then a.threads[c.state.loader] else NeverStarted;
              var l := if isNew then a.nextLoader + 1 else a.nextLoader;
              && OnlyChanges(a.covers, b.covers, play)
              && Becomes(c, Resolving(t, now, a.frameNo, l, world), b.covers[play])
              && b.View(play) == (if b.covers[play].current.None? then None
                                  else Some(CoverView(c.id, b.covers[play].current.value)))
              && b.settings == a.settings && b.epoch == a.epoch && b.frameNo == a.frameNo
              && b.nextId == (if isNew then a.nextId + 1 else a.nextId)
  {
    if play.path != "" {
      var there := a.Ensure(play, now, world.started);
      var c := there.covers[play];
      var t := there.LoaderFor(play);
      ResolveBecomes(c, Resolving(t, now, a.frameNo, there.nextLoader, world));
      assert a.Resolve(play, now, world).covers[play] == Advanced(c, t, now, a.frameNo, there.nextLoader, world);
    }
  }

  /** Different settings leave only covers with ids that were not in use before. */
  lemma NewSettingsNewIds(a: Core, new_: Settings, now: nat, started: Thread)
    requires a.settings != Some(new_)
    ensures var b := a.SetSettings(new_, now, started);
            forall p :: p in b.covers ==> b.covers[p].id >= a.nextId
  {
  }

  function Unused(c: Cover, now: nat): nat {
    if now < c.lastUsed then 0 else now - c.lastUsed
  }

  /** Eviction never takes a cover that would still be animating, then or later. */
  lemma EvictionKeepsAnimating(a: Core, now: nat, later: nat)
    requires now <= later
    ensures a.Animates(later) <==> a.EndFrame(now).Animates(later)
  {
    var b := a.EndFrame(now);
    forall p | p in a.covers && IsLive(a.covers[p], later) ensures p in b.covers && b.covers[p] == a.covers[p] {
    }
  }

  /** A resolve that leaves its cover opening, or ready and animated, keeps the registry
      animating for EVICT_AFTER, whatever frames end or covers are resolved meanwhile; when
      nothing is resolved again, it stops then. */
  lemma ResolvedAnimates(a: Core, play: Play, now: nat, world: World, end: nat, later: nat)
    requires play.path != "" && now <= end <= later
    ensures var b := a.Resolve(play, now, world).EndFrame(end);
            var c := a.Resolve(play, now, world).covers[play];
            && (later < now + 30_000 && MayAnimate(c) ==> b.Animates(later))
            && (a.covers.Keys <= {play} && b.Animates(later) ==> MayAnimate(c) && later < now + 30_000)
  {
    var r := a.Resolve(play, now, world);
    var c := r.covers[play];
    assert c.lastUsed == now;
    EvictionKeepsAnimating(r, end, later);
    if later < now + EVICT_AFTER && MayAnimate(c) {
      assert IsLive(r.covers[play], later);
    }
  }

  predicate MayAnimate(c: Cover) {
    c.state.Opening? || (c.state.Ready? && c.state.src.kind != Still)
  }

  predicate IsLive(c: Cover, now: nat) {
    MayAnimate(c) && Unused(c, now) < EVICT_AFTER
  }

  datatype Picture = Picture(id: nat, generation: nat)

  // ---- loaders ----

  ghost predicate OpensWith(covers: map<Play, Cover>, play: Play, l: nat) {
    play in covers && covers[play].state.Opening? && covers[play].state.loader == l
  }

  /** Every loader is owned by exactly one opening cover, parked, or joined. */
  ghost predicate LoadersConserved(
    covers: map<Play, Cover>, retired: seq<nat>, joined: map<nat, bool>, threads: map<nat, Thread>, nextLoader: nat)
  {
    && (forall l: nat :: l in threads <==> l < nextLoader)
    && (forall p, l: nat :: OpensWith(covers, p, l) ==> l in threads && l !in retired && l !in joined)
    && (forall p, q, l: nat :: OpensWith(covers, p, l) && OpensWith(covers, q, l) ==> p == q)
    && (forall a :: 0 <= a < |retired| ==> retired[a] in threads && retired[a] !in joined)
    && (forall a, b :: 0 <= a < b < |retired| ==> retired[a] != retired[b])
    && (forall l: nat :: l in joined ==> l in threads)
    && (forall l: nat :: l in threads ==> l in joined || l in retired || exists p :: OpensWith(covers, p, l))
  }

  /** A cover that goes away leaves its loader to be parked or joined, nothing else. */
  lemma ConservedWithout(
    covers: map<Play, Cover>, retired: seq<nat>, joined: map<nat, bool>, threads: map<nat, Thread>, nextLoader: nat,
    play: Play, retired': seq<nat>, joined': map<nat, bool>)
    requires LoadersConserved(covers, retired, joined, threads, nextLoader) && play in covers
    requires var s := covers[play].state;
             || (!s.Opening? && retired' == retired && joined' == joined)
             || (s.Opening? && retired' == retired + [s.loader] && joined' == joined)
             || (s.Opening? && retired' == retired && joined'.Keys == joined.Keys + {s.loader})
    ensures LoadersConserved(covers - {play}, retired', joined', threads, nextLoader)
  {
    var rest := covers - {play};
    var s := covers[play].state;
    assert s.Opening? ==> OpensWith(covers, play, s.loader);
    forall p, l: nat | OpensWith(rest, p, l)
      ensures l in threads && l !in retired' && l !in joined'
    {
      assert OpensWith(covers, p, l);
    }
    forall p, q, l: nat | OpensWith(rest, p, l) && OpensWith(rest, q, l) ensures p == q {
      assert OpensWith(covers, p, l) && OpensWith(covers, q, l);
    }
    forall l: nat | l in threads ensures l in joined' || l in retired' || exists p :: OpensWith(rest, p, l) {
      if l !in joined && l !in retired {
        var p :| OpensWith(covers, p, l);
        if p == play {
          assert retired' != retired ==> retired'[|retired|] == l;
        } else {
          assert OpensWith(rest, p, l);
        }
      }
    }
  }

  /** A cover with no loader of its own takes the place of one that went away. */
  lemma ConservedWith(
    covers: map<Play, Cover>, retired: seq<nat>, joined: map<nat, bool>, threads: map<nat, Thread>, nextLoader: nat,
    play: Play, c: Cover)
    requires LoadersConserved(covers - {play}, retired, joined, threads, nextLoader) && !c.state.Opening?
    ensures LoadersConserved(covers[play := c], retired, joined, threads, nextLoader)
  {
    var rest, next := covers - {play}, covers[play := c];
    forall p, l: nat ensures OpensWith(next, p, l) <==> OpensWith(rest, p, l) {
    }
  }

  lemma ConservedTouched(
    covers: map<Play, Cover>, retired: seq<nat>, joined: map<nat, bool>, threads: map<nat, Thread>, nextLoader: nat,
    play: Play, c: Cover)
    requires LoadersConserved(covers, retired, joined, threads, nextLoader)
    requires play in covers && covers[play].state == c.state
    ensures LoadersConserved(covers[play := c], retired, joined, threads, nextLoader)
  {
    var next := covers[play := c];
    forall p, l: nat ensures OpensWith(next, p, l) <==> OpensWith(covers, p, l) {
    }
    forall l: nat | l in threads ensures l in joined || l in retired || exists p :: OpensWith(next, p, l) {
      if l !in joined && l !in retired {
        var p :| OpensWith(covers, p, l);
        assert OpensWith(next, p, l);
      }
    }
  }

  /** A cover starts opening with a loader of its own. */
  lemma ConservedSpawn(
    covers: map<Play, Cover>, retired: seq<nat>, joined: map<nat, bool>, threads: map<nat, Thread>, nextLoader: nat,
    play: Play, c: Cover, t: Thread)
    requires LoadersConserved(covers, retired, joined, threads, nextLoader)
    requires play in covers ==> !covers[play].state.Opening?
    requires c.state.Opening? && c.state.loader == nextLoader
    ensures LoadersConserved(covers[play := c], retired, joined, threads[nextLoader := t], nextLoader + 1)
  {
    var next := covers[play := c];
    forall p, l: nat ensures OpensWith(next, p, l) <==> OpensWith(covers, p, l) || (p == play && l == nextLoader) {
    }
    assert nextLoader !in threads && nextLoader !in retired && nextLoader !in joined;
    assert OpensWith(next, play, nextLoader);
    forall l: nat | l in threads ensures l in joined || l in retired || exists p :: OpensWith(next, p, l) {
      if l !in joined && l !in retired {
        var p :| OpensWith(covers, p, l);
        assert OpensWith(next, p, l);
      }
    }
  }

  lemma ConservedReaped(
    covers: map<Play, Cover>, kept: seq<nat>, rest: seq<nat>, joined: map<nat, bool>, threads: map<nat, Thread>,
    nextLoader: nat, l: nat, waiting: seq<nat>)
    requires waiting == kept + [l] + rest
    requires LoadersConserved(covers, waiting, joined, threads, nextLoader)
    ensures l in threads && l !in joined
    ensures LoadersConserved(covers, kept + rest, joined[l := threads[l].Running?], threads, nextLoader)
  {
    assert waiting[|kept|] == l;
    var left := kept + rest;
    forall a | 0 <= a < |left| ensures left[a] == waiting[if a < |kept| then a else a + 1] {
    }
    forall k: nat | k in waiting && k != l ensures k in left {
      var a :| 0 <= a < |waiting| && waiting[a] == k;
      assert left[if a < |kept| then a else a - 1] == k;
    }
  }

  /** Dropping the first parked loader joins it. */
  lemma DroppedHead(
    covers: map<Play, Cover>, retired: seq<nat>, joined: map<nat, bool>, threads: map<nat, Thread>, nextLoader: nat)
    requires retired != [] && LoadersConserved(covers, retired, joined, threads, nextLoader)
    ensures retired[0] in threads && retired[0] !in joined
    ensures LoadersConserved(covers, retired[1..], joined[retired[0] := threads[retired[0]].Running?], threads,
            nextLoader)
  {
    assert retired == [] + [retired[0]] + retired[1..] && [] + retired[1..] == retired[1..];
    ConservedReaped(covers, [], retired[1..], joined, threads, nextLoader, retired[0], retired);
  }

  lemma WithoutOneMore(m: map<Play, Cover>, gone: set<Play>, play: Play)
    ensures m - gone - {play} == m - (gone + {play})
    ensures play in m && play !in gone ==> play in m - gone
  {
  }

  /** The loaders that haven't finished, in order. */
  function AtWork(loaders: seq<nat>, threads: map<nat, Thread>): seq<nat> {
    if loaders == [] then []
    else
      var n := |loaders| - 1;
      var rest := AtWork(loaders[..n], threads);
      if loaders[n] in threads && threads[loaders[n]].Finished() then rest else rest + [loaders[n]]
  }

  lemma {:induction false} AtWorkExactly(loaders: seq<nat>, threads: map<nat, Thread>)
    ensures forall l :: l in AtWork(loaders, threads) <==>
              l in loaders && !(l in threads && (threads[l].Done? || threads[l].NeverStarted?))
  {
    if loaders != [] {
      var n := |loaders| - 1;
      AtWorkExactly(loaders[..n], threads);
      assert loaders == loaders[..n] + [loaders[n]];
    }
  }

  /** Of the parked loaders the first n were looked at: those of them at work are kept, and
      with the others they still wait. */
  ghost predicate Reaped(loaders: seq<nat>, n: nat, kept: seq<nat>, waiting: seq<nat>, threads: map<nat, Thread>) {
    n <= |loaders| && kept == AtWork(loaders[..n], threads) && waiting == kept + loaders[n..]
  }

  lemma ReapedNone(loaders: seq<nat>, threads: map<nat, Thread>)
    ensures Reaped(loaders, 0, [], loaders, threads)
  {
  }

  lemma ReapedAll(loaders: seq<nat>, kept: seq<nat>, waiting: seq<nat>, threads: map<nat, Thread>)
    requires Reaped(loaders, |loaders|, kept, waiting, threads)
    ensures kept == waiting == AtWork(loaders, threads)
  {
    assert loaders[..|loaders|] == loaders && loaders[|loaders|..] == [];
  }

  lemma AtWorkStep(loaders: seq<nat>, n: nat, threads: map<nat, Thread>)
    requires n < |loaders| && loaders[n] in threads
    ensures AtWork(loaders[..n + 1], threads) ==
            AtWork(loaders[..n], threads) + if threads[loaders[n]].Finished() then [] else [loaders[n]]
  {
    assert loaders[..n + 1][..n] == loaders[..n];
  }

  lemma SplitAt(before: seq<nat>, loaders: seq<nat>, n: nat)
    requires n < |loaders|
    ensures before + loaders[n..] == before + [loaders[n]] + loaders[n + 1..]
  {
  }

  /** Only the cover of play changed, or came to be. */
  ghost predicate OnlyChanges(before: map<Play, Cover>, after: map<Play, Cover>, play: Play) {
    && (forall p :: p in after <==> p in before || p == play)
    && (forall p :: p in before && p != play ==> after[p] == before[p])
  }

  lemma OneCoverChanged(before: map<Play, Cover>, after: map<Play, Cover>, play: Play)
    requires OnlyChanges(before, after, play)
    ensures after == before[play := after[play]]
  {
  }

  /** The two parts of a resolve, together. */
  lemma AdvancedCore(a: Core, looked: Core, b: Core, play: Play, now: nat, world: World)
    requires play in a.covers
    requires OnlyChanges(a.covers, looked.covers, play) && OnlyChanges(looked.covers, b.covers, play)
    requires looked.covers[play] == Looked(a.covers[play], now, a.nextLoader, world)
    requires looked == a.Look(play, now, world).(covers := looked.covers) && b == looked.(covers := b.covers)
    requires looked.covers[play].state.Opening? ==>
               looked.LoaderFor(play) == AskedThread(a.covers[play], a.LoaderFor(play), world)
    requires b.covers[play] == Renewed(Received(looked.covers[play], looked.LoaderFor(play), now), a.frameNo, world)
    ensures b == a.Advance(play, now, world)
  {
    OnlyChangesFurther(a.covers, looked.covers, b.covers, play);
    OneCoverChanged(a.covers, b.covers, play);
  }

  lemma OnlyChangesFurther(m1: map<Play, Cover>, m2: map<Play, Cover>, m3: map<Play, Cover>, play: Play)
    requires OnlyChanges(m1, m2, play) && OnlyChanges(m2, m3, play)
    ensures OnlyChanges(m1, m3, play)
  {
  }

  /** Nothing joined is forgotten. */
  ghost predicate JoinsKept(before: map<nat, bool>, after: map<nat, bool>) {
    forall l: nat :: l in before ==> l in after && after[l] == before[l]
  }

  /** No join so far waited for an open that was still running. */
  ghost predicate NeverWaited(joined: map<nat, bool>, threads: map<nat, Thread>) {
    forall l: nat :: l in joined ==> !joined[l] && (l in threads ==> !threads[l].Running?)
  }

  // ---- pictures ----

  ghost predicate IdsUnique(covers: map<Play, Cover>, nextId: nat) {
    && (forall p :: p in covers ==> covers[p].id < nextId)
    && (forall p, q :: p in covers && q in covers && covers[p].id == covers[q].id ==> p == q)
  }

  /** What has been seen under a cover's id, by the state it is in. */
  ghost predicate CoverKnown(c: Cover, history: map<Picture, Content>, readyFor: map<nat, nat>) {
    && (c.current.Some? ==> Picture(c.id, c.current.value.generation) in history &&
                            history[Picture(c.id, c.current.value.generation)] == c.current.value.content)
    && (!c.state.Ready? ==> c.current.None?)
    && (c.state.Opening? || c.state.Missing? ==>
          c.id !in readyFor && forall k :: k in history ==> k.id != c.id)
    && (c.state.Ready? ==>
          c.id in readyFor && readyFor[c.id] == c.state.src.loader &&
          (c.current.Some? ==> c.current.value.generation == c.state.src.lastGeneration) &&
          forall k :: k in history && k.id == c.id ==> k.generation <= c.state.src.lastGeneration)
  }

  ghost predicate PicturesKnown(
    covers: map<Play, Cover>, nextId: nat, history: map<Picture, Content>, readyFor: map<nat, nat>)
  {
    && (forall k :: k in history ==> k.id < nextId)
    && (forall id: nat :: id in readyFor ==> id < nextId)
    && (forall p :: p in covers ==> CoverKnown(covers[p], history, readyFor))
  }

  /** Changing one cover, and what is known under its id only, leaves the rest known. */
  lemma PicturesUpdate(
    covers: map<Play, Cover>, nextId: nat, history: map<Picture, Content>, readyFor: map<nat, nat>,
    play: Play, c: Cover, history': map<Picture, Content>, readyFor': map<nat, nat>)
    requires IdsUnique(covers[play := c], nextId) && PicturesKnown(covers, nextId, history, readyFor)
    requires CoverKnown(c, history', readyFor')
    requires forall k: Picture :: k.id != c.id ==> (k in history <==> k in history')
    requires forall k: Picture :: k.id != c.id && k in history ==> history[k] == history'[k]
    requires forall id: nat :: id != c.id ==> (id in readyFor <==> id in readyFor')
    requires forall id: nat :: id != c.id && id in readyFor ==> readyFor[id] == readyFor'[id]
    ensures PicturesKnown(covers[play := c], nextId, history', readyFor')
  {
    var next := covers[play := c];
    assert next[play] == c && c.id < nextId;
    forall k | k in history' ensures k.id < nextId {
      assert k.id != c.id ==> k in history;
    }
    forall id: nat | id in readyFor' ensures id < nextId {
      assert id != c.id ==> id in readyFor;
    }
    forall p | p in next ensures CoverKnown(next[p], history', readyFor') {
      if p != play {
        assert next[p] == covers[p] && CoverKnown(covers[p], history, readyFor);
        assert next[p].id != next[play].id;
      }
    }
  }

  /** A cover that goes away takes nothing known with it. */
  lemma KnownWithout(
    covers: map<Play, Cover>, nextId: nat, history: map<Picture, Content>, readyFor: map<nat, nat>, play: Play)
    requires IdsUnique(covers, nextId) && PicturesKnown(covers, nextId, history, readyFor)
    ensures IdsUnique(covers - {play}, nextId) && PicturesKnown(covers - {play}, nextId, history, readyFor)
  {
    var rest := covers - {play};
    forall p | p in rest ensures rest[p] == covers[p] && CoverKnown(rest[p], history, readyFor) {
    }
  }

  /** The next id is nobody's, and nothing is known under it. */
  lemma IdsWithNew(covers: map<Play, Cover>, nextId: nat, play: Play, c: Cover)
    requires IdsUnique(covers, nextId) && c.id == nextId
    ensures IdsUnique(covers[play := c], nextId + 1)
  {
  }

  /** A cover that keeps its id leaves the ids unique. */
  lemma IdsWithUpdate(covers: map<Play, Cover>, nextId: nat, play: Play, c: Cover)
    requires IdsUnique(covers, nextId) && play in covers && c.id == covers[play].id
    ensures IdsUnique(covers[play := c], nextId)
  {
  }

  /** More is known, all of the new under one id. */
  ghost predicate Extends(history: map<Picture, Content>, seen: map<Picture, Content>, id: nat) {
    && (forall k :: k in history ==> k in seen && seen[k] == history[k])
    && (forall k :: k in seen && k !in history ==> k.id == id)
  }

  ghost predicate ExtendsReady(readyFor: map<nat, nat>, ready: map<nat, nat>, id: nat) {
    && (forall k: nat :: k in readyFor ==> k in ready && ready[k] == readyFor[k])
    && (forall k: nat :: k in ready && k !in readyFor ==> k == id)
  }

  lemma ExtendsFurther(
    h1: map<Picture, Content>, h2: map<Picture, Content>, h3: map<Picture, Content>, id: nat)
    requires Extends(h1, h2, id) && Extends(h2, h3, id)
    ensures Extends(h1, h3, id)
  {
  }

  ghost function Seen(history: map<Picture, Content>, c: Cover): map<Picture, Content> {
    if c.current.Some? then history[Picture(c.id, c.current.value.generation) := c.current.value.content] else history
  }

  /** A delivered first picture is the first under its id, and so is its source. */
  lemma DeliveredKnown(c: Cover, t: Thread, now: nat, history: map<Picture, Content>, readyFor: map<nat, nat>)
    requires c.state.Opening? && CoverKnown(c, history, readyFor)
    ensures var c' := Delivered(c, t, now);
            var ready := if c'.state.Ready? then readyFor[c.id := c.state.loader] else readyFor;
            && c'.id == c.id && (t.Running? || !c'.state.Opening?)
            && Extends(history, Seen(history, c'), c.id) && ExtendsReady(readyFor, ready, c.id)
            && CoverKnown(c', Seen(history, c'), ready)
  {
  }

  /** A polled picture is newer than everything known under its id. */
  lemma PolledKnown(c: Cover, frameNo: nat, polled: Polled, history: map<Picture, Content>, readyFor: map<nat, nat>)
    requires c.state.Ready? && CoverKnown(c, history, readyFor)
    ensures var c' := AfterPoll(c, frameNo, polled);
            && c'.id == c.id && !c'.state.Opening?
            && Extends(history, Seen(history, c'), c.id)
            && CoverKnown(c', Seen(history, c'), readyFor)
  {
  }

  // ---- what every operation keeps ----

  /** The covers, their loaders, and what is known of their pictures. */
  datatype Books = Books(
    covers: map<Play, Cover>, nextId: nat, retired: seq<nat>, joined: map<nat, bool>, threads: map<nat, Thread>,
    nextLoader: nat, history: map<Picture, Content>, readyFor: map<nat, nat>)
  {
    ghost predicate Right() {
      && LoadersConserved(covers, retired, joined, threads, nextLoader) && NeverWaited(joined, threads)
      && IdsUnique(covers, nextId) && PicturesKnown(covers, nextId, history, readyFor)
    }

    /** What no operation ever does: forget or change a known picture, hand an id to a
        second source, give a cover an id that was in use before. */
    ghost predicate GrowsTo(after: Books) {
      && nextId <= after.nextId && nextLoader <= after.nextLoader
      && (forall k :: k in history ==> k in after.history && after.history[k] == history[k])
      && (forall id :: id in readyFor ==> id in after.readyFor && after.readyFor[id] == readyFor[id])
      && (forall p :: p in after.covers && after.covers[p].id < nextId ==>
            p in covers && covers[p].id == after.covers[p].id)
      && JoinsKept(joined, after.joined)
    }
  }

  lemma GrowsFurther(a: Books, b: Books, c: Books)
    requires a.GrowsTo(b) && b.GrowsTo(c)
    ensures a.GrowsTo(c)
  {
  }

  lemma StartedRight(b: Books, play: Play, c: Cover, t: Thread)
    requires b.Right() && play !in b.covers
    requires c.id == b.nextId && c.state.Opening? && c.state.loader == b.nextLoader && c.current.None?
    ensures b.(covers := b.covers[play := c], nextId := b.nextId + 1, nextLoader := b.nextLoader + 1,
               threads := b.threads[b.nextLoader := t]).Right()
  {
    ConservedSpawn(b.covers, b.retired, b.joined, b.threads, b.nextLoader, play, c, t);
    IdsWithNew(b.covers, b.nextId, play, c);
    PicturesUpdate(b.covers, b.nextId + 1, b.history, b.readyFor, play, c, b.history, b.readyFor);
  }

  lemma ReopenedRight(b: Books, play: Play, t: Thread)
    requires b.Right() && play in b.covers && b.covers[play].state.Missing?
    ensures b.(covers := b.covers[play := b.covers[play].(state := Opening(b.nextLoader, true))],
               nextLoader := b.nextLoader + 1, threads := b.threads[b.nextLoader := t]).Right()
  {
    var c := b.covers[play].(state := Opening(b.nextLoader, true));
    assert CoverKnown(b.covers[play], b.history, b.readyFor);
    ConservedSpawn(b.covers, b.retired, b.joined, b.threads, b.nextLoader, play, c, t);
    IdsWithUpdate(b.covers, b.nextId, play, c);
    PicturesUpdate(b.covers, b.nextId, b.history, b.readyFor, play, c, b.history, b.readyFor);
  }

  lemma TouchedRight(b: Books, play: Play, now: nat)
    requires b.Right() && play in b.covers
    ensures b.(covers := b.covers[play := b.covers[play].(lastUsed := now)]).Right()
  {
    var c := b.covers[play].(lastUsed := now);
    assert CoverKnown(b.covers[play], b.history, b.readyFor);
    ConservedTouched(b.covers, b.retired, b.joined, b.threads, b.nextLoader, play, c);
    IdsWithUpdate(b.covers, b.nextId, play, c);
    PicturesUpdate(b.covers, b.nextId, b.history, b.readyFor, play, c, b.history, b.readyFor);
  }

  /** A cover without a loader goes away. */
  lemma RemovedRight(b: Books, play: Play)
    requires b.Right() && play in b.covers && !b.covers[play].state.Opening?
    ensures b.(covers := b.covers - {play}).Right()
  {
    KnownWithout(b.covers, b.nextId, b.history, b.readyFor, play);
    ConservedWithout(b.covers, b.retired, b.joined, b.threads, b.nextLoader, play, b.retired, b.joined);
  }

  /** The loader of a cover that goes away is parked, ... */
  lemma ParkedRight(b: Books, play: Play)
    requires b.Right() && play in b.covers && b.covers[play].state.Opening?
    ensures b.(covers := b.covers - {play}, retired := b.retired + [b.covers[play].state.loader]).Right()
  {
    KnownWithout(b.covers, b.nextId, b.history, b.readyFor, play);
    ConservedWithout(b.covers, b.retired, b.joined, b.threads, b.nextLoader, play,
                     b.retired + [b.covers[play].state.loader], b.joined);
  }

  /** ... or joined, once it has nothing more to deliver. */
  lemma JoinedRight(b: Books, play: Play)
    requires b.Right() && play in b.covers && b.covers[play].state.Opening?
    requires b.covers[play].state.loader in b.threads && !b.threads[b.covers[play].state.loader].Running?
    ensures b.(covers := b.covers - {play}, joined := b.joined[b.covers[play].state.loader := false]).Right()
  {
    KnownWithout(b.covers, b.nextId, b.history, b.readyFor, play);
    ConservedWithout(b.covers, b.retired, b.joined, b.threads, b.nextLoader, play,
                     b.retired, b.joined[b.covers[play].state.loader := false]);
  }

  class Registry {
    var settings: Option<Settings>
    const fallback: Settings
    var epoch: nat
    var covers: map<Play, Cover>
    var nextId: nat
    var frameNo: nat
    /** Parked loaders of covers that went away while opening. */
    var retired: seq<nat>
    /** Every loader thread ever started, by number. */
    var nextLoader: nat
    var threads: map<nat, Thread>
    var cancelled: set<nat>
    /** Loaders joined so far, and whether joining had to wait for an undelivered result. */
    var joined: map<nat, bool>
    /** Every picture that was ever current under a cover id and generation. */
    ghost var history: map<Picture, Content>
    /** The source that became ready under a cover id. */
    ghost var readyFor: map<nat, nat>

    function At(): Core
      reads this
    {
      Core(settings, fallback, epoch, covers, nextId, frameNo, nextLoader, threads)
    }

    ghost function Book(): Books
      reads this
    {
      Books(covers, nextId, retired, joined, threads, nextLoader, history, readyFor)
    }

    ghost predicate Valid()
      reads this
    {
      Book().Right()
    }

    twostate predicate Grows()
      reads this
    {
      old(Book()).GrowsTo(Book())
    }

    constructor (fallback: Settings)
      ensures Valid() && this.fallback == fallback && epoch == 0 && covers == map[] && nextLoader == 0
      ensures history == map[]
    {
      this.fallback := fallback;
      settings, epoch, covers, nextId, frameNo := None, 0, map[], 1, 0;
      retired, nextLoader, threads, cancelled, joined := [], 0, map[], {}, map[];
      history, readyFor := map[], map[];
    }

    /** A loader thread gets one step further; this can happen at any moment. */
    method ThreadRuns(l: nat, result: LoadResult)
      requires Valid() && l in threads
      modifies this`threads
      ensures Valid() && Grows()
      ensures At() == old(At()).ThreadRuns(l, result)
      ensures old(threads[l]).Running? ==> threads[l] == Sent(result)
      ensures old(threads[l]).Sent? ==> threads[l] == Done(old(threads[l]).result)
      ensures !old(threads[l]).Running? && !old(threads[l]).Sent? ==> threads[l] == old(threads[l])
    {
      threads := threads[l := threads[l].Further(result)];
    }

    /** Every loader that has not delivered yet is owned once: by one opening cover, or
        parked in one place. */
    lemma UndeliveredIsOwned(l: nat)
      requires Valid() && l in threads && threads[l].Running?
      ensures l !in joined
      ensures (exists p :: OpensWith(covers, p, l)) <==> l !in retired
      ensures forall p, q :: OpensWith(covers, p, l) && OpensWith(covers, q, l) ==> p == q
      ensures forall a, b :: 0 <= a < b < |retired| && retired[a] == l ==> retired[b] != l
    {
      if exists p :: OpensWith(covers, p, l) {
        var p :| OpensWith(covers, p, l);
        assert l !in retired;
      }
    }

    /** Dropping a loader joins its thread. */
    method Join(l: nat)
      requires l in threads && l !in joined
      modifies this`joined
      ensures joined == old(joined)[l := threads[l].Running?] && JoinsKept(old(joined), joined)
    {
      joined := joined[l := threads[l].Running?];
    }

    /** Removes covers one by one, in whatever order. */
    method RetireAll(which: set<Play>)
      requires Valid() && which <= covers.Keys
      modifies this`covers, this`retired, this`cancelled, this`joined
      ensures Valid() && JoinsKept(old(joined), joined)
      ensures covers == old(covers) - which
    {
      var left := which;
      ghost var gone: set<Play> := {};
      assert covers == old(covers) - gone;
      while left != {}
        invariant Valid() && JoinsKept(old(joined), joined)
        invariant gone + left == which && gone !! left && covers == old(covers) - gone && which <= old(covers).Keys
        decreases left
      {
        var play :| play in left;
        WithoutOneMore(old(covers), gone, play);
        Retire(play);
        left, gone := left - {play}, gone + {play};
      }
      assert gone == which;
    }

    /** Removes a cover; a loader that is still at work is parked, not joined. */
    method Retire(play: Play)
      requires Valid() && play in covers
      modifies this`covers, this`retired, this`cancelled, this`joined
      ensures Valid() && JoinsKept(old(joined), joined)
      ensures covers == old(covers) - {play}
      ensures forall l: nat :: OpensWith(old(covers), play, l) ==> l in threads
      ensures var s := old(covers)[play].state;
              && (s.Opening? && !threads[s.loader].Done? && !threads[s.loader].NeverStarted? ==>
                    retired == old(retired) + [s.loader] && cancelled == old(cancelled) + {s.loader})
              && (s.Opening? && (threads[s.loader].Done? || threads[s.loader].NeverStarted?) ==>
                    joined == old(joined)[s.loader := false])
              && (!s.Opening? || threads[s.loader].Done? || threads[s.loader].NeverStarted? ==>
                    retired == old(retired) && cancelled == old(cancelled))
              && (!s.Opening? || !(threads[s.loader].Done? || threads[s.loader].NeverStarted?) ==>
                    joined == old(joined))
    {
      ghost var b := Book();
      var state := covers[play].state;
      covers := covers - {play};
      if state.Opening? {
        assert OpensWith(b.covers, play, state.loader);
        if !threads[state.loader].Finished() {
          ParkedRight(b, play);
          cancelled := cancelled + {state.loader};
          retired := retired + [state.loader];
          assert Book() == b.(covers := covers, retired := retired);
        } else {
          JoinedRight(b, play);
          Join(state.loader);
          assert Book() == b.(covers := covers, joined := joined);
        }
      } else {
        RemovedRight(b, play);
        assert Book() == b.(covers := covers);
      }
    }

    // ---- opening ----

    /** started: how far the new loader thread is when somebody first looks at it. */
    method Start(play: Play, now: nat, started: Thread)
      requires Valid() && play !in covers
      modifies this`covers, this`nextId, this`nextLoader, this`threads
      ensures Valid() && Grows()
      ensures At() == old(At()).Start(play, now, started)
      ensures covers == old(covers)[play := Cover(old(nextId), Opening(old(nextLoader), false), None, 0, now)]
    {
      Put(play, NewCover(nextId, nextLoader, now), started);
    }

    /** A new cover with a loader of its own. */
    method Put(play: Play, c: Cover, started: Thread)
      requires Valid() && play !in covers
      requires c.id == nextId && c.state.Opening? && c.state.loader == nextLoader && c.current.None?
      modifies this`covers, this`nextId, this`nextLoader, this`threads
      ensures Valid() && covers == old(covers)[play := c] && threads == old(threads)[old(nextLoader) := started]
      ensures nextId == old(nextId) + 1 && nextLoader == old(nextLoader) + 1
    {
      ghost var b := Book();
      StartedRight(b, play, c, started);
      covers := covers[play := c];
      threads := threads[nextLoader := started];
      nextId, nextLoader := nextId + 1, nextLoader + 1;
      assert Book() == b.(covers := covers, nextId := nextId, nextLoader := nextLoader, threads := threads);
    }

    /** Has a cover opened that nobody asked for yet, unless there is one. */
    method Warm(play: Play, now: nat, started: Thread)
      requires Valid()
      modifies this`covers, this`nextId, this`nextLoader, this`threads
      ensures Valid() && Grows()
      ensures At() == old(At()).Warm(play, now, started)
      ensures covers == if play.path == "" || play in old(covers) then old(covers)
                        else old(covers)[play := Cover(old(nextId), Opening(old(nextLoader), false), None, 0, now)]
    {
      if play.path == "" || play in covers {
        return;
      }
      Start(play, now, started);
    }

    /** Settings arrive; different ones throw everything away. */
    method SetSettings(new_: Settings, now: nat, started: Thread)
      requires Valid()
      modifies this
      ensures Valid() && Grows()
      ensures At() == old(At()).SetSettings(new_, now, started)
      ensures old(settings) == Some(new_) ==> retired == old(retired) && At() == old(At())
      ensures old(settings) != Some(new_) ==>
                && settings == Some(new_) && epoch == old(epoch) + 1
                && covers == if new_.pathCover == "" then map[]
                             else map[Play(new_.pathCover, new_.speed, new_.looped) :=
                                      Cover(old(nextId), Opening(old(nextLoader), false), None, 0, now)]
      ensures old(settings) != Some(new_) ==> forall p :: p in covers ==> covers[p].id >= old(nextId)
    {
      if settings == Some(new_) {
        return;
      }
      NewSettingsNewIds(At(), new_, now, started);
      ghost var b := Book();
      ghost var empty := Change(new_, now, started);
      GrowsFurther(b, empty, Book());
    }

    /** Settings that differ. empty: everything, once the old covers are gone. */
    method Change(new_: Settings, now: nat, started: Thread) returns (ghost empty: Books)
      requires Valid() && settings != Some(new_)
      modifies this
      ensures Valid() && old(Book()).GrowsTo(empty) && empty.GrowsTo(Book())
      ensures At() == old(At()).SetSettings(new_, now, started)
    {
      NewEpoch(new_);
      empty := Book();
      Warm(new_.DefaultPlay(), now, started);
    }

    /** Settings that differ: a new epoch without covers. */
    method NewEpoch(new_: Settings)
      requires Valid()
      modifies this
      ensures Valid() && Grows()
      ensures At() == old(At()).NewEpoch(new_)
    {
      Reset();
      ghost var empty := Book();
      settings := Some(new_);
      epoch := epoch + 1;
      assert Book() == empty;
    }

    /** Everything goes, except what loaders are still at work on. */
    method Reset()
      requires Valid()
      modifies this`covers, this`retired, this`cancelled, this`joined
      ensures Valid() && Grows() && covers == map[]
    {
      RetireAll(covers.Keys);
    }

    // ---- frames ----

    /** Parked loaders that have finished are let go; joining them is instant. */
    method BeginFrame()
      requires Valid()
      modifies this`frameNo, this`retired, this`joined
      ensures Valid() && Grows()
      ensures At() == old(At()).(frameNo := old(frameNo) + 1)
      ensures retired == AtWork(old(retired), threads)
      ensures forall l :: l in retired <==>
                l in old(retired) && l in threads && !threads[l].Done? && !threads[l].NeverStarted?
      ensures forall l :: l in old(retired) && l !in retired ==> l in joined
    {
      ReapFinished();
      AtWorkExactly(old(retired), threads);
      frameNo := frameNo + 1;
    }

    /** One parked loader of waiting: kept while it is at work, joined once it has finished. */
    method Reap(before: seq<nat>, l: nat, rest: seq<nat>, ghost waiting: seq<nat>)
      returns (kept: seq<nat>, ghost left: seq<nat>)
      requires waiting == before + [l] + rest
      requires LoadersConserved(covers, waiting, joined, threads, nextLoader) && NeverWaited(joined, threads)
      modifies this`joined
      ensures l in threads && left == kept + rest
      ensures LoadersConserved(covers, left, joined, threads, nextLoader) && NeverWaited(joined, threads)
      ensures kept == if threads[l].Finished() then before else before + [l]
      ensures JoinsKept(old(joined), joined)
    {
      ConservedReaped(covers, before, rest, joined, threads, nextLoader, l, waiting);
      if !threads[l].Finished() {
        kept, left := before + [l], waiting;
      } else {
        kept, left := before, before + rest;
        Join(l);
      }
    }

    /** The n-th of the parked loaders. */
    method ReapNth(loaders: seq<nat>, n: nat, before: seq<nat>, ghost waiting: seq<nat>)
      returns (kept: seq<nat>, ghost left: seq<nat>)
      requires n < |loaders| && Reaped(loaders, n, before, waiting, threads)
      requires LoadersConserved(covers, waiting, joined, threads, nextLoader) && NeverWaited(joined, threads)
      modifies this`joined
      ensures Reaped(loaders, n + 1, kept, left, threads)
      ensures LoadersConserved(covers, left, joined, threads, nextLoader) && NeverWaited(joined, threads)
      ensures JoinsKept(old(joined), joined)
    {
      SplitAt(before, loaders, n);
      kept, left := Reap(before, loaders[n], loaders[n + 1..], waiting);
      AtWorkStep(loaders, n, threads);
    }

    method ReapFinished()
      requires Valid()
      modifies this`retired, this`joined
      ensures Valid() && JoinsKept(old(joined), joined)
      ensures retired == AtWork(old(retired), threads)
    {
      var loaders, kept := retired, [];
      ghost var waiting := loaders;
      ReapedNone(loaders, threads);
      var n := 0;
      while n < |loaders|
        invariant Reaped(loaders, n, kept, waiting, threads)
        invariant LoadersConserved(covers, waiting, joined, threads, nextLoader) && NeverWaited(joined, threads)
        invariant JoinsKept(old(joined), joined)
      {
        kept, waiting := ReapNth(loaders, n, kept, waiting);
        n := n + 1;
      }
      ReapedAll(loaders, kept, waiting, threads);
      retired := kept;
    }

    /** Unused covers are closed, except the default one. */
    method EndFrame(now: nat)
      requires Valid()
      modifies this`covers, this`retired, this`cancelled, this`joined
      ensures Valid() && Grows()
      ensures At() == old(At()).EndFrame(now)
      ensures var s := if settings.Some? then settings.value else fallback;
              forall p :: p in covers <==>
                && p in old(covers)
                && (p == Play(s.pathCover, s.speed, s.looped) || now < old(covers)[p].lastUsed + 30_000)
      ensures forall p :: p in covers ==> covers[p] == old(covers)[p]
    {
      RetireAll(set p | p in covers && At().IsStale(p, covers[p], now));
    }

    // ---- resolve ----

    /** Looks for a missing file, if it is time to. */
    method RetryMissing(play: Play, now: nat, world: World)
      requires Valid() && play in covers
      modifies this`covers, this`nextLoader, this`threads
      ensures Valid() && OnlyChanges(old(covers), covers, play)
      ensures covers[play] == Retried(old(covers)[play], now, old(nextLoader), world.present)
      ensures nextLoader == old(At()).Look(play, now, world).nextLoader
      ensures threads == old(At()).Look(play, now, world).threads
      ensures covers[play].state.Opening? ==>
                At().LoaderFor(play) == AskedThread(old(covers)[play], old(At()).LoaderFor(play), world)
    {
      var c := covers[play];
      if c.state.Missing? {
        assert CoverKnown(c, history, readyFor);
        if now >= c.state.retryAt && world.present {
          ghost var b := Book();
          ReopenedRight(b, play, world.started);
          covers := covers[play := c.(state := Opening(nextLoader, true))];
          threads := threads[nextLoader := world.started];
          nextLoader := nextLoader + 1;
          assert Book() == b.(covers := covers, nextLoader := nextLoader, threads := threads);
        } else if now >= c.state.retryAt {
          Replace(play, c.(state := Missing(now + MISSING_RETRY)));
        }
      }
    }

    /** Changes a cover that has no loader, before and after, and no new picture. */
    method Replace(play: Play, c: Cover)
      requires Valid() && play in covers && !covers[play].state.Opening? && !c.state.Opening?
      requires c.id == covers[play].id && CoverKnown(c, history, readyFor)
      modifies this`covers
      ensures Valid() && OnlyChanges(old(covers), covers, play) && covers[play] == c
    {
      ConservedWithout(covers, retired, joined, threads, nextLoader, play, retired, joined);
      ConservedWith(covers, retired, joined, threads, nextLoader, play, c);
      IdsWithUpdate(covers, nextId, play, c);
      PicturesUpdate(covers, nextId, history, readyFor, play, c, history, readyFor);
      covers := covers[play := c];
    }

    /** Puts the next state of a cover in place, with what is now known about it. */
    method Commit(play: Play, c: Cover, ghost seen: map<Picture, Content>, ghost ready: map<nat, nat>)
      requires play in covers && c.id == covers[play].id && !c.state.Opening?
      requires LoadersConserved(covers - {play}, retired, joined, threads, nextLoader) && NeverWaited(joined, threads)
      requires IdsUnique(covers, nextId) && PicturesKnown(covers, nextId, history, readyFor)
      requires Extends(history, seen, c.id) && ExtendsReady(readyFor, ready, c.id) && CoverKnown(c, seen, ready)
      modifies this`covers, this`history, this`readyFor
      ensures Valid()
      ensures OnlyChanges(old(covers), covers, play) && covers[play] == c && history == seen && readyFor == ready
    {
      ConservedWith(covers, retired, joined, threads, nextLoader, play, c);
      IdsWithUpdate(covers, nextId, play, c);
      PicturesUpdate(covers, nextId, history, readyFor, play, c, seen, ready);
      covers := covers[play := c];
      history, readyFor := seen, ready;
    }

    /** Takes what the loader delivered, if it did; only then the loader is dropped. */
    method Receive(play: Play, now: nat)
      requires Valid() && play in covers
      modifies this`covers, this`joined, this`history, this`readyFor
      ensures Valid() && JoinsKept(old(joined), joined)
      ensures Extends(old(history), history, old(covers)[play].id)
      ensures ExtendsReady(old(readyFor), readyFor, old(covers)[play].id)
      ensures OnlyChanges(old(covers), covers, play)
      ensures var c := old(covers)[play];
              covers[play] == Received(c, old(At()).LoaderFor(play), now)
      ensures old(At()).LoaderFor(play).Running? ==> joined == old(joined)
    {
      var c := covers[play];
      if c.state.Opening? {
        var l := c.state.loader;
        assert OpensWith(covers, play, l);
        if !threads[l].Running? {
          var c' := Delivered(c, threads[l], now);
          assert CoverKnown(c, history, readyFor);
          DeliveredKnown(c, threads[l], now, history, readyFor);
          ghost var joins := joined;
          Join(l);
          ConservedWithout(covers, retired, joins, threads, nextLoader, play, retired, joined);
          Commit(play, c', Seen(history, c'), if c'.state.Ready? then readyFor[c.id := l] else readyFor);
        }
      }
    }

    /** Polls a ready source, if this frame has not yet done so. */
    method PollReady(play: Play, world: World)
      requires Valid() && play in covers
      modifies this`covers, this`history, this`readyFor
      ensures Valid() && readyFor == old(readyFor)
      ensures Extends(old(history), history, old(covers)[play].id)
      ensures OnlyChanges(old(covers), covers, play)
      ensures var c := old(covers)[play];
              covers[play] == Renewed(c, frameNo, world)
    {
      var c := covers[play];
      if c.state.Ready? && c.polledIn != frameNo {
        var c' := AfterPoll(c, frameNo, world.polled);
        assert CoverKnown(c, history, readyFor);
        PolledKnown(c, frameNo, world.polled, history, readyFor);
        ConservedWithout(covers, retired, joined, threads, nextLoader, play, retired, joined);
        Commit(play, c', Seen(history, c'), readyFor);
      }
    }

    /** What resolve does to a cover that is there. */
    method Advance(play: Play, now: nat, world: World)
      requires Valid() && play in covers
      modifies this`covers, this`nextLoader, this`threads, this`joined, this`history, this`readyFor
      ensures Valid() && JoinsKept(old(joined), joined)
      ensures Extends(old(history), history, old(covers)[play].id)
      ensures ExtendsReady(old(readyFor), readyFor, old(covers)[play].id)
      ensures At() == old(At()).Advance(play, now, world)
    {
      ghost var a := At();
      TouchAndLook(play, now, world);
      ghost var looked := At();
      Settle(play, now, world);
      AdvancedCore(a, looked, At(), play, now, world);
    }

    /** The second part: the loader's result, then the source. */
    method Settle(play: Play, now: nat, world: World)
      requires Valid() && play in covers
      modifies this`covers, this`joined, this`history, this`readyFor
      ensures Valid() && JoinsKept(old(joined), joined)
      ensures Extends(old(history), history, old(covers)[play].id)
      ensures ExtendsReady(old(readyFor), readyFor, old(covers)[play].id)
      ensures OnlyChanges(old(covers), covers, play)
      ensures covers[play] == Renewed(Received(old(covers)[play], old(At()).LoaderFor(play), now), frameNo, world)
    {
      ghost var c, before, known := covers[play], covers, history;
      Receive(play, now);
      ghost var received, seen := covers, history;
      PollReady(play, world);
      ExtendsFurther(known, seen, history, c.id);
      OnlyChangesFurther(before, received, covers, play);
    }

    /** The first part: the cover is in use now, and a missing file may be looked for. */
    method TouchAndLook(play: Play, now: nat, world: World)
      requires Valid() && play in covers
      modifies this`covers, this`nextLoader, this`threads
      ensures Valid() && OnlyChanges(old(covers), covers, play)
      ensures covers[play] == Looked(old(covers)[play], now, old(nextLoader), world)
      ensures nextLoader == old(At()).Look(play, now, world).nextLoader
      ensures threads == old(At()).Look(play, now, world).threads
      ensures covers[play].state.Opening? ==>
                At().LoaderFor(play) == AskedThread(old(covers)[play], old(At()).LoaderFor(play), world)
    {
      ghost var before := covers;
      Touch(play, now);
      ghost var touched := covers;
      RetryMissing(play, now, world);
      OnlyChangesFurther(before, touched, covers, play);
    }

    /** The cover to draw. What it returns is what is known under that id and generation,
        no matter which threads have finished, what was evicted or retried before. */
    method Resolve(play: Play, now: nat, world: World) returns (view: Option<CoverView>)
      requires Valid()
      modifies this
      ensures Valid() && Grows()
      ensures retired == old(retired)
      ensures At() == old(At()).Resolve(play, now, world) && view == At().View(play)
      ensures view.Some? ==> Picture(view.value.id, view.value.frame.generation) in history &&
                             history[Picture(view.value.id, view.value.frame.generation)] == view.value.frame.content
      ensures view.Some? ==>
                forall k :: k in history && k.id == view.value.id ==> k.generation <= view.value.frame.generation
    {
      if play.path == "" {
        return None;
      }
      EnsureCover(play, now, world.started);
      AdvanceGrows(play, now, world);
      assert CoverKnown(covers[play], history, readyFor);
      view := ViewOf(covers[play]);
    }

    method AdvanceGrows(play: Play, now: nat, world: World)
      requires Valid() && play in covers
      modifies this`covers, this`nextLoader, this`threads, this`joined, this`history, this`readyFor
      ensures Valid() && Grows() && At() == old(At()).Advance(play, now, world)
    {
      Advance(play, now, world);
    }

    method EnsureCover(play: Play, now: nat, started: Thread)
      requires Valid()
      modifies this`covers, this`nextId, this`nextLoader, this`threads
      ensures Valid() && Grows() && play in covers
      ensures At() == old(At()).Ensure(play, now, started)
    {
      if play !in covers {
        Start(play, now, started);
      }
    }

    method Touch(play: Play, now: nat)
      requires Valid() && play in covers
      modifies this`covers
      ensures Valid() && OnlyChanges(old(covers), covers, play)
      ensures covers[play] == old(covers)[play].(lastUsed := now)
    {
      var c := covers[play].(lastUsed := now);
      TouchedRight(Book(), play, now);
      covers := covers[play := c];
    }

    /** Whether any cover may still bring new pictures. */
    method Animating(now: nat) returns (yes: bool)
      requires Valid()
      ensures yes <==> At().Animates(now)
      ensures yes <==> exists p :: && p in covers && now < covers[p].lastUsed + 30_000
                                   && (covers[p].state.Opening? ||
                                       (covers[p].state.Ready? && covers[p].state.src.kind.Animated?))
    {
      var left := covers.Keys;
      while left != {}
        invariant left <= covers.Keys
        invariant forall p :: p in covers && IsLive(covers[p], now) ==> p in left
        decreases left
      {
        var p :| p in left;
        if IsLive(covers[p], now) {
          return true;
        }
        left := left - {p};
      }
      yes := false;
    }

    /** A dropped cover takes its loader with it: cancelled, then joined. */
    method DropCover(play: Play)
      requires play in covers && LoadersConserved(covers, retired, joined, threads, nextLoader)
      modifies this`covers, this`cancelled, this`joined
      ensures LoadersConserved(covers, retired, joined, threads, nextLoader)
      ensures covers == old(covers) - {play} && JoinsKept(old(joined), joined) && old(cancelled) <= cancelled
      ensures forall l: nat :: l in joined && l !in old(joined) ==> l in cancelled && joined[l] == threads[l].Running?
    {
      var c := covers[play];
      if c.state.Opening? {
        assert OpensWith(covers, play, c.state.loader);
        cancelled := cancelled + {c.state.loader};
        Join(c.state.loader);
      }
      ConservedWithout(covers, retired, old(joined), threads, nextLoader, play, retired, joined);
      covers := covers - {play};
    }

    method DropRetired()
      requires retired != [] && LoadersConserved(covers, retired, joined, threads, nextLoader)
      modifies this`retired, this`cancelled, this`joined
      ensures LoadersConserved(covers, retired, joined, threads, nextLoader)
      ensures old(retired)[0] in threads && old(retired)[0] !in old(joined)
      ensures retired == old(retired)[1..] && cancelled == old(cancelled) + {old(retired)[0]}
      ensures joined == old(joined)[old(retired)[0] := threads[old(retired)[0]].Running?]
    {
      DroppedHead(covers, retired, joined, threads, nextLoader);
      cancelled := cancelled + {retired[0]};
      Join(retired[0]);
      retired := retired[1..];
    }

    /** What was joined since is cancelled, and waited for exactly if it was still opening. */
    ghost predicate JoinedSince(before: map<nat, bool>)
      reads this
    {
      && JoinsKept(before, joined)
      && forall l: nat :: l in joined && l !in before && l in threads ==>
           l in cancelled && joined[l] == threads[l].Running?
    }

    method DropCovers()
      requires LoadersConserved(covers, retired, joined, threads, nextLoader)
      modifies this`covers, this`cancelled, this`joined
      ensures covers == map[] && LoadersConserved(covers, retired, joined, threads, nextLoader)
      ensures JoinedSince(old(joined))
    {
      while covers != map[]
        invariant LoadersConserved(covers, retired, joined, threads, nextLoader)
        invariant JoinedSince(old(joined))
        decreases |covers|
      {
        var play :| play in covers;
        DropCover(play);
      }
    }

    method DropParked(ghost before: map<nat, bool>)
      requires LoadersConserved(covers, retired, joined, threads, nextLoader) && JoinedSince(before)
      modifies this`retired, this`cancelled, this`joined
      ensures retired == [] && LoadersConserved(covers, retired, joined, threads, nextLoader)
      ensures JoinedSince(before)
    {
      while retired != []
        invariant LoadersConserved(covers, retired, joined, threads, nextLoader)
        invariant JoinedSince(before)
        decreases |retired|
      {
        DropRetired();
      }
    }

    /** Unloading the plugin: every thread that was ever started has been joined. */
    method Drop()
      requires Valid()
      modifies this`covers, this`retired, this`cancelled, this`joined
      ensures covers == map[] && retired == []
      ensures joined.Keys == threads.Keys && JoinsKept(old(joined), joined)
      ensures forall l: nat :: l in threads && l !in old(joined) ==> l in cancelled && joined[l] == threads[l].Running?
    {
      DropCovers();
      DropParked(old(joined));
      forall l: nat | l in threads ensures l in joined {
        assert forall p :: !OpensWith(covers, p, l);
      }
    }
  }
}
