/** Texture cache of the painter, keyed by cover id, and the drawing of a media cover
    through the registry and the cache. */
module Textures {
  import opened Wrappers
  import opened Registry

  /** A frame as it crosses into the painter. */
  datatype MediaKind = Cpu | DmaBuf | NoPixels
  datatype MediaFrame = MediaFrame(coverId: nat, generation: nat, content: Content, kind: MediaKind, width: nat,
      height: nat)

  /** A texture; ok: the renderer could really make it. */
  datatype Texture = Texture(content: Content, ok: bool)
  datatype Cached = Cached(tex: Option<Texture>, generation: nat, width: nat, height: nat, dmabuf: bool)

  /** What the renderer does when asked for a texture: none, an unusable one, a good one. */
  datatype Upload = NoTexture | BadTexture | GoodTexture

  function Uploaded(f: MediaFrame, u: Upload): Option<Texture> {
    match u
    case NoTexture => None
    case BadTexture => Some(Texture(f.content, false))
    case GoodTexture => Some(Texture(f.content, true))
  }

  /** The texture in the cache is good for this frame's pixels. */
  predicate UpdatesInPlace(c: Cached, f: MediaFrame) {
    f.kind == Cpu && c.tex.Some? && !c.dmabuf && c.width == f.width && c.height == f.height && c.tex.value.ok
  }

  /** The cached entry a frame is drawn from, after its texture was made or updated. */
  function Refreshed(c: Cached, f: MediaFrame, u: Upload): Cached {
    if UpdatesInPlace(c, f) then Cached(Some(Texture(f.content, true)), f.generation, f.width, f.height, false)
    else Cached(Uploaded(f, u), f.generation, f.width, f.height, f.kind == DmaBuf)
  }

  const EMPTY := Cached(None, 0, 0, 0, false)

  /** The entry is for this very frame. */
  predicate Hit(c: Cached, f: MediaFrame) {
    c.tex.Some? && c.generation == f.generation
  }

  /** The entry after a lookup. */
  function Entry(c: Cached, f: MediaFrame, u: Upload): Cached {
    if Hit(c, f) || f.kind == NoPixels then c else Refreshed(c, f, u)
  }

  /** The texture a lookup hands out. */
  function Handed(c: Cached, f: MediaFrame, u: Upload): Option<Texture> {
    if Hit(c, f) then c.tex
    else if f.kind == NoPixels then None
    else if Refreshed(c, f, u).tex.Some? && Refreshed(c, f, u).tex.value.ok then Refreshed(c, f, u).tex
    else None
  }

  predicate Unusable(t: Option<Texture>) {
    t.Some? && !t.value.ok
  }

  /** A lookup whose upload leaves an unusable texture behind. */
  predicate Fails(c: Cached, f: MediaFrame, u: Upload) {
    !Hit(c, f) && f.kind != NoPixels && Unusable(Refreshed(c, f, u).tex)
  }

  /** A failed upload: nothing is handed out, but the next lookup of the same frame hands the
      unusable texture out all the same, whatever the renderer could do by then. */
  lemma FailedUploadIsReused(c: Cached, f: MediaFrame, u: Upload, later: Upload)
    requires Fails(c, f, u)
    ensures Handed(c, f, u) == None
    ensures Handed(Entry(c, f, u), f, later) == Some(Texture(f.content, false))
  {
  }

  /** One lookup: an unusable texture is handed out exactly if the entry hit holds one, and it
      leaves one behind exactly if it hit one or its own upload made one. */
  lemma HandsOutUnusableExactly(c: Cached, f: MediaFrame, u: Upload)
    ensures Unusable(Handed(c, f, u)) <==> Hit(c, f) && !c.tex.value.ok
    ensures f.kind != NoPixels ==>
              (Unusable(Entry(c, f, u).tex) <==> Unusable(Handed(c, f, u)) || Fails(c, f, u))
    ensures Fails(c, f, u) <==> !Hit(c, f) && f.kind != NoPixels && u == BadTexture && !UpdatesInPlace(c, f)
  {
  }

  /** With usable textures only and successful uploads, every lookup of a frame with pixels
      hands out a usable texture of it, provided a hit really is this frame's picture. */
  lemma UsableStaysUsable(c: Cached, f: MediaFrame)
    requires c.tex.Some? ==> c.tex.value.ok && (c.generation == f.generation ==> c.tex.value.content == f.content)
    requires f.kind != NoPixels
    ensures Handed(c, f, GoodTexture) == Some(Texture(f.content, true))
    ensures Hit(Entry(c, f, GoodTexture), f) && Entry(c, f, GoodTexture).tex.value.ok
  {
  }

  // ---- the cache ----

  datatype CacheState = CacheState(textures: map<nat, Cached>, epoch: nat, frameCount: nat) {
    /** What a lookup finds; the core's reset empties the cache first. */
    function Known(coreEpoch: nat): map<nat, Cached> {
      if epoch == coreEpoch then textures else map[]
    }

    function Found(id: nat, coreEpoch: nat): Cached {
      if id in Known(coreEpoch) then Known(coreEpoch)[id] else EMPTY
    }

    function Look(f: MediaFrame, coreEpoch: nat, u: Upload): CacheState {
      CacheState(Known(coreEpoch)[f.coverId := Entry(Found(f.coverId, coreEpoch), f, u)], coreEpoch, frameCount)
    }

    function Prune(alive: set<nat>): CacheState {
      var left := map id | id in textures && id in alive :: textures[id];
      CacheState(if (frameCount + 1) % 120 != 0 then textures else left, epoch, frameCount + 1)
    }
  }

  /** A lookup in full. A new epoch empties the cache. The entry of this very frame is handed out and
      stays. Else the pixels, if there are any, go into the texture that is there, if it is a usable
      one of that size made from pixels, and into a new one if not; only a usable one is handed out. */
  ghost predicate LooksUp(before: CacheState, f: MediaFrame, coreEpoch: nat, u: Upload, after: CacheState,
                          tex: Option<Texture>)
  {
    var was := if coreEpoch == before.epoch then before.textures else map[];
    var c := if f.coverId in was then was[f.coverId] else Cached(None, 0, 0, 0, false);
    && after.epoch == coreEpoch && after.frameCount == before.frameCount
    && (forall id :: id in after.textures <==> id in was || id == f.coverId)
    && (forall id :: id in was && id != f.coverId ==> after.textures[id] == was[id])
    && if c.tex.Some? && c.generation == f.generation then after.textures[f.coverId] == c && tex == c.tex
       else if f.kind == NoPixels then after.textures[f.coverId] == c && tex == None
       else
         var good := u == GoodTexture || (f.kind == Cpu && c.tex.Some? && c.tex.value.ok && !c.dmabuf &&
                                          c.width == f.width && c.height == f.height);
         && after.textures[f.coverId] == Cached(if good then Some(Texture(f.content, true))
                                                else if u == BadTexture then Some(Texture(f.content, false))
                                                else None,
                                                f.generation, f.width, f.height, f.kind == DmaBuf)
         && tex == if good then Some(Texture(f.content, true)) else None
  }

  class TextureCache {
    var textures: map<nat, Cached>
    var epoch: nat
    var frameCount: nat

    function At(): CacheState
      reads this
    {
      CacheState(textures, epoch, frameCount)
    }

    constructor ()
      ensures At() == CacheState(map[], 0, 0)
    {
      textures, epoch, frameCount := map[], 0, 0;
    }

    /** The texture of a frame; nothing is uploaded for a frame the cache already has. */
    method TextureFor(f: MediaFrame, coreEpoch: nat, u: Upload) returns (tex: Option<Texture>)
      modifies this`textures, this`epoch
      ensures At() == old(At()).Look(f, coreEpoch, u)
      ensures tex == Handed(old(At()).Found(f.coverId, coreEpoch), f, u)
      ensures LooksUp(old(At()), f, coreEpoch, u, At(), tex)
    {
      if coreEpoch != epoch {
        textures := map[];
        epoch := coreEpoch;
      }
      var c := if f.coverId in textures then textures[f.coverId] else EMPTY;
      if f.coverId !in textures {
        textures := textures[f.coverId := c];
      }
      if c.tex.Some? && c.generation == f.generation {
        return c.tex;
      }
      if f.kind == NoPixels {
        return None;
      }
      c := Refreshed(c, f, u);
      textures := textures[f.coverId := c];
      tex := if c.tex.Some? && c.tex.value.ok then c.tex else None;
    }

    /** Every couple of seconds textures of covers that are gone are dropped. */
    method Prune(alive: set<nat>)
      modifies this`textures, this`frameCount
      ensures At() == old(At()).Prune(alive)
      ensures frameCount == old(frameCount) + 1
      ensures forall id :: id in textures <==> id in old(textures) && (frameCount % 120 != 0 || id in alive)
      ensures forall id :: id in textures ==> textures[id] == old(textures)[id]
    {
      frameCount := frameCount + 1;
      if frameCount % 120 == 0 {
        textures := map id | id in textures && id in alive :: textures[id];
      }
    }
  }

  /** Whatever texture the cache holds shows what is known under its id and generation. */
  ghost predicate Coherent(cache: CacheState, history: map<Picture, Content>) {
    forall id: nat :: id in cache.textures && cache.textures[id].tex.Some? ==>
                        Picture(id, cache.textures[id].generation) in history &&
                        history[Picture(id, cache.textures[id].generation)] == cache.textures[id].tex.value.content
  }

  /** A lookup of a known picture hands out that picture, usable or not, and the cache stays
      coherent, whatever the upload comes to. */
  lemma LookShowsFrame(cache: CacheState, f: MediaFrame, coreEpoch: nat, u: Upload, history: map<Picture, Content>)
    requires Coherent(cache, history)
    requires Picture(f.coverId, f.generation) in history && history[Picture(f.coverId, f.generation)] == f.content
    ensures Coherent(cache.Look(f, coreEpoch, u), history)
    ensures var tex := Handed(cache.Found(f.coverId, coreEpoch), f, u);
            && (tex.Some? ==> tex.value.content == f.content)
            && (f.kind != NoPixels && u.GoodTexture? ==> tex.Some?)
  {
  }

  // ---- the core and the cache together ----

  datatype Snap = Snap(core: Core, cache: CacheState)

  /** One thing that can happen between two draws, or a draw. */
  datatype Event =
    | Settings(settings: Settings, now: nat, started: Thread)
    | FrameStarts
    | FrameEnds(now: nat)
    | Warmed(play: Play, now: nat, started: Thread)
    | LoaderRuns(loader: nat, result: LoadResult)
    | Pruned
    | Drawn(play: Play, now: nat, world: World, kind: MediaKind, width: nat, height: nat, upload: Upload)

  function AliveIds(core: Core): set<nat> {
    set p | p in core.covers :: core.covers[p].id
  }

  /** The core after an event. */
  function CoreAfter(core: Core, e: Event): Core {
    match e
    case Settings(s, now, started) => core.SetSettings(s, now, started)
    case FrameStarts => core.(frameNo := core.frameNo + 1)
    case FrameEnds(now) => core.EndFrame(now)
    case Warmed(play, now, started) => core.Warm(play, now, started)
    case LoaderRuns(l, result) => if l in core.threads then core.ThreadRuns(l, result) else core
    case Pruned => core
    case Drawn(play, now, world, _, _, _, _) => core.Resolve(play, now, world)
  }

  /** The picture that is current for the drawn cover at a draw. */
  function Current(s: Snap, e: Event): Option<CoverView> {
    if e.Drawn? then CoreAfter(s.core, e).View(e.play) else None
  }

  function FrameOf(v: CoverView, e: Event): MediaFrame
    requires e.Drawn?
  {
    MediaFrame(v.id, v.frame.generation, v.frame.content, e.kind, e.width, e.height)
  }

  function FoundAt(s: Snap, e: Event): Cached {
    if Current(s, e).Some? then s.cache.Found(Current(s, e).value.id, CoreAfter(s.core, e).epoch) else EMPTY
  }

  /** The texture an event draws, if it draws one. */
  function TextureAt(s: Snap, e: Event): Option<Texture> {
    if Current(s, e).Some? then Handed(FoundAt(s, e), FrameOf(Current(s, e).value, e), e.upload) else None
  }

  function Step(s: Snap, e: Event): Snap {
    var core := CoreAfter(s.core, e);
    Snap(core,
         if e.Pruned? then s.cache.Prune(AliveIds(core))
         else if Current(s, e).Some? then s.cache.Look(FrameOf(Current(s, e).value, e), core.epoch, e.upload)
         else s.cache)
  }

  /** The event draws picture p, and its upload fails. */
  predicate FailsAt(s: Snap, e: Event, p: Picture) {
    && Current(s, e).Some? && Picture(Current(s, e).value.id, Current(s, e).value.frame.generation) == p
    && Fails(FoundAt(s, e), FrameOf(Current(s, e).value, e), e.upload)
  }

  ghost predicate Follows(trace: seq<Snap>, events: seq<Event>) {
    |trace| == |events| + 1 && forall n :: 0 <= n < |events| ==> trace[n + 1] == Step(trace[n], events[n])
  }

  /** An upload of picture p failed in one of the first n events. */
  ghost predicate FailedBefore(trace: seq<Snap>, events: seq<Event>, n: nat, p: Picture)
    requires |trace| == |events| + 1 && n <= |events|
  {
    exists m :: 0 <= m < n && FailsAt(trace[m], events[m], p)
  }

  /** What is current for the drawn cover in state s. */
  function Shown(s: Snap, e: Event): Option<CoverView> {
    if e.Drawn? then s.core.View(e.play) else None
  }

  /** What event n draws: the content current for its cover, always; a texture, if the upload
      is good; an unusable one, exactly if an earlier upload of that very picture failed. */
  ghost predicate DrawsRight(trace: seq<Snap>, events: seq<Event>, n: nat, tex: Option<Texture>)
    requires |trace| == |events| + 1 && n < |events|
  {
    var e := events[n];
    var view := Shown(trace[n + 1], e);
    && tex == TextureAt(trace[n], e)
    && (tex.Some? ==> view.Some? && tex.value.content == view.value.frame.content)
    && (e.Drawn? && e.kind != NoPixels && e.upload.GoodTexture? ==> (tex.Some? <==> view.Some?))
    && (Unusable(tex) <==>
          view.Some? && FailedBefore(trace, events, n, Picture(view.value.id, view.value.frame.generation)))
  }

  // ---- what is kept over a run ----

  /** A draw, as it is remembered: its picture, the core's epoch then, whether its upload failed. */
  datatype Look = Look(picture: Picture, epoch: nat, failed: bool)

  function LookAt(s: Snap, e: Event): Option<Look> {
    if Current(s, e).None? then None
    else
      var p := Picture(Current(s, e).value.id, Current(s, e).value.frame.generation);
      Some(Look(p, CoreAfter(s.core, e).epoch, FailsAt(s, e, p)))
  }

  /** The log of draws, the core and the known pictures fit together: pictures drawn are
      known, and a cover that is alive was only ever drawn in this epoch. */
  ghost predicate LogFits(log: seq<Option<Look>>, core: Core, history: map<Picture, Content>) {
    forall m :: 0 <= m < |log| && log[m].Some? ==>
                  && log[m].value.picture in history && log[m].value.picture.id < core.nextId
                  && (log[m].value.picture.id in AliveIds(core) ==> log[m].value.epoch == core.epoch)
  }

  ghost predicate LoggedFailure(log: seq<Option<Look>>, p: Picture) {
    exists m :: 0 <= m < |log| && log[m].Some? && log[m].value.failed && log[m].value.picture == p
  }

  /** A failed picture of a cover that is alive is still in the cache, or a newer one is. */
  ghost predicate StillThere(look: Look, core: Core, cache: CacheState) {
    var id := look.picture.id;
    && cache.epoch == core.epoch && id in cache.textures
    && (if Unusable(cache.textures[id].tex) && cache.textures[id].generation == look.picture.generation then true
        else cache.textures[id].generation > look.picture.generation)
  }

  /** What the log says of the cache: every unusable texture comes from a failed upload of its
      picture, and failed uploads of living covers are not forgotten. */
  ghost predicate CacheFits(log: seq<Option<Look>>, core: Core, cache: CacheState, history: map<Picture, Content>) {
    && cache.epoch <= core.epoch
    && (forall id: nat :: id in cache.textures ==>
          cache.textures[id].generation == 0 || Picture(id, cache.textures[id].generation) in history)
    && (forall id: nat :: id in cache.textures && Unusable(cache.textures[id].tex) ==>
          LoggedFailure(log, Picture(id, cache.textures[id].generation)))
    && (forall m :: 0 <= m < |log| && log[m].Some? && log[m].value.failed ==>
          log[m].value.picture.id in AliveIds(core) ==> StillThere(log[m].value, core, cache))
  }

  ghost predicate Told(log: seq<Option<Look>>, core: Core, cache: CacheState, history: map<Picture, Content>) {
    LogFits(log, core, history) && CacheFits(log, core, cache, history) && Coherent(cache, history)
  }

  /** The core went on: no dead cover came back, and a new epoch has new covers only. */
  ghost predicate CoreMoved(a: Core, b: Core) {
    && a.nextId <= b.nextId && a.epoch <= b.epoch
    && (forall id: nat :: id in AliveIds(b) && id < a.nextId ==> id in AliveIds(a) && a.epoch == b.epoch)
  }

  lemma MovedByIds(a: Core, b: Core)
    requires a.nextId <= b.nextId && a.epoch <= b.epoch
    requires forall p :: p in b.covers && b.covers[p].id < a.nextId ==>
                           a.epoch == b.epoch && p in a.covers && a.covers[p].id == b.covers[p].id
    ensures CoreMoved(a, b)
  {
  }

  lemma ToldMoves(log: seq<Option<Look>>, a: Core, b: Core, cache: CacheState,
                  before: map<Picture, Content>, after: map<Picture, Content>)
    requires Told(log, a, cache, before) && CoreMoved(a, b)
    requires forall k :: k in before ==> k in after && after[k] == before[k]
    ensures Told(log, b, cache, after)
  {
    forall m | 0 <= m < |log| && log[m].Some? && log[m].value.failed && log[m].value.picture.id in AliveIds(b)
      ensures StillThere(log[m].value, b, cache)
    {
      assert StillThere(log[m].value, a, cache);
    }
  }

  lemma ToldQuiet(log: seq<Option<Look>>, core: Core, cache: CacheState, history: map<Picture, Content>)
    requires Told(log, core, cache, history)
    ensures Told(log + [None], core, cache, history)
  {
    MoreFailures(log, None);
  }

  lemma MoreFailures(log: seq<Option<Look>>, look: Option<Look>)
    ensures forall p :: LoggedFailure(log + [look], p) <==>
                        LoggedFailure(log, p) || (look.Some? && look.value.failed && look.value.picture == p)
  {
    var more := log + [look];
    forall p | LoggedFailure(log, p) ensures LoggedFailure(more, p) {
      var m :| 0 <= m < |log| && log[m].Some? && log[m].value.failed && log[m].value.picture == p;
      assert more[m] == log[m];
    }
    assert more[|log|] == look;
  }

  lemma ToldPruned(log: seq<Option<Look>>, core: Core, cache: CacheState, history: map<Picture, Content>)
    requires Told(log, core, cache, history)
    ensures Told(log, core, cache.Prune(AliveIds(core)), history)
  {
    var pruned := cache.Prune(AliveIds(core));
    forall m | 0 <= m < |log| && log[m].Some? && log[m].value.failed && log[m].value.picture.id in AliveIds(core)
      ensures StillThere(log[m].value, core, pruned)
    {
      assert StillThere(log[m].value, core, cache);
    }
  }

  /** The frame is the newest known picture of a cover that is alive. */
  ghost predicate IsNewest(f: MediaFrame, core: Core, history: map<Picture, Content>) {
    && f.coverId in AliveIds(core) && f.coverId < core.nextId
    && Picture(f.coverId, f.generation) in history && history[Picture(f.coverId, f.generation)] == f.content
    && forall k :: k in history && k.id == f.coverId ==> k.generation <= f.generation
  }

  /** A draw hands out an unusable texture exactly if an upload of its picture has failed. */
  lemma UnusableIsLogged(log: seq<Option<Look>>, core: Core, cache: CacheState, history: map<Picture, Content>,
                         f: MediaFrame, u: Upload)
    requires Told(log, core, cache, history) && IsNewest(f, core, history)
    ensures Unusable(Handed(cache.Found(f.coverId, core.epoch), f, u)) <==>
            LoggedFailure(log, Picture(f.coverId, f.generation))
  {
    var c := cache.Found(f.coverId, core.epoch);
    HandsOutUnusableExactly(c, f, u);
    if LoggedFailure(log, Picture(f.coverId, f.generation)) {
      var m :| 0 <= m < |log| && log[m].Some? && log[m].value.failed &&
               log[m].value.picture == Picture(f.coverId, f.generation);
      assert StillThere(log[m].value, core, cache);
    }
  }

  /** A draw keeps the log and the cache together. */
  lemma ToldLooked(log: seq<Option<Look>>, core: Core, cache: CacheState, history: map<Picture, Content>,
                   f: MediaFrame, u: Upload)
    requires Told(log, core, cache, history) && IsNewest(f, core, history)
    ensures var failed := Fails(cache.Found(f.coverId, core.epoch), f, u);
            var look := Look(Picture(f.coverId, f.generation), core.epoch, failed);
            Told(log + [Some(look)], core, cache.Look(f, core.epoch, u), history)
  {
    var c := cache.Found(f.coverId, core.epoch);
    var look := Look(Picture(f.coverId, f.generation), core.epoch, Fails(c, f, u));
    var after := cache.Look(f, core.epoch, u);
    LookShowsFrame(cache, f, core.epoch, u, history);
    HandsOutUnusableExactly(c, f, u);
    MoreFailures(log, Some(look));
    forall m | 0 <= m < |log| && log[m].Some? && log[m].value.failed && log[m].value.picture.id in AliveIds(core)
      ensures StillThere(log[m].value, core, after)
    {
      assert StillThere(log[m].value, core, cache);
    }
  }

  // ---- runs ----

  /** One event, with the log of the draws before it. */
  method Handle(reg: Registry, cache: TextureCache, e: Event, ghost log: seq<Option<Look>>)
      returns (tex: Option<Texture>)
    requires reg.Valid() && Told(log, reg.At(), cache.At(), reg.history)
    modifies reg, cache
    ensures reg.Valid()
    ensures var s := old(Snap(reg.At(), cache.At()));
            && Snap(reg.At(), cache.At()) == Step(s, e) && tex == TextureAt(s, e)
            && Told(log + [LookAt(s, e)], reg.At(), cache.At(), reg.history)
            && HandsRight(log, s, e, tex)
  {
    if e.Drawn? {
      tex := Draw(reg, cache, e, log);
    } else {
      MoveOn(reg, cache, e, log);
      tex := None;
      ToldQuiet(log, reg.At(), cache.At(), reg.history);
    }
  }

  /** The texture is of the current picture, and unusable exactly if the log has a failed
      upload of that picture. */
  ghost predicate HandsRight(log: seq<Option<Look>>, s: Snap, e: Event, tex: Option<Texture>) {
    var view := Current(s, e);
    && (tex.Some? ==> view.Some? && tex.value.content == view.value.frame.content)
    && (e.Drawn? && e.kind != NoPixels && e.upload.GoodTexture? ==> (tex.Some? <==> view.Some?))
    && (Unusable(tex) <==> view.Some? && LoggedFailure(log, Picture(view.value.id, view.value.frame.generation)))
  }

  method Draw(reg: Registry, cache: TextureCache, e: Event, ghost log: seq<Option<Look>>) returns (tex: Option<Texture>)
    requires e.Drawn? && reg.Valid() && Told(log, reg.At(), cache.At(), reg.history)
    modifies reg, cache
    ensures reg.Valid()
    ensures var s := old(Snap(reg.At(), cache.At()));
            && Snap(reg.At(), cache.At()) == Step(s, e) && tex == TextureAt(s, e)
            && Told(log + [LookAt(s, e)], reg.At(), cache.At(), reg.history)
            && HandsRight(log, s, e, tex)
  {
    ghost var a, known := reg.At(), reg.history;
    var view := reg.Resolve(e.play, e.now, e.world);
    MovedByIds(a, reg.At());
    ToldMoves(log, a, reg.At(), cache.At(), known, reg.history);
    if view.None? {
      ToldQuiet(log, reg.At(), cache.At(), reg.history);
      return None;
    }
    var f := FrameOf(view.value, e);
    UnusableIsLogged(log, reg.At(), cache.At(), reg.history, f, e.upload);
    LookShowsFrame(cache.At(), f, reg.epoch, e.upload, reg.history);
    ToldLooked(log, reg.At(), cache.At(), reg.history, f, e.upload);
    tex := cache.TextureFor(f, reg.epoch, e.upload);
  }

  /** An event that draws nothing. */
  method MoveOn(reg: Registry, cache: TextureCache, e: Event, ghost log: seq<Option<Look>>)
    requires !e.Drawn? && reg.Valid() && Told(log, reg.At(), cache.At(), reg.history)
    modifies reg, cache
    ensures reg.Valid() && Told(log, reg.At(), cache.At(), reg.history)
    ensures Snap(reg.At(), cache.At()) == Step(old(Snap(reg.At(), cache.At())), e)
  {
    if e.Pruned? {
      ToldPruned(log, reg.At(), cache.At(), reg.history);
      cache.Prune(set p | p in reg.covers :: reg.covers[p].id);
    } else {
      MoveCore(reg, e);
      ToldMoves(log, old(reg.At()), reg.At(), cache.At(), old(reg.history), reg.history);
    }
  }

  /** An event of the core only. */
  method MoveCore(reg: Registry, e: Event)
    requires !e.Drawn? && reg.Valid()
    modifies reg
    ensures reg.Valid() && reg.At() == CoreAfter(old(reg.At()), e) && CoreMoved(old(reg.At()), reg.At())
    ensures forall k :: k in old(reg.history) ==> k in reg.history && reg.history[k] == old(reg.history)[k]
  {
    if e.Settings? {
      MoveSettings(reg, e);
    } else {
      ghost var a, b := reg.At(), reg.Book();
      MoveSame(reg, e);
      GrownMoved(a, b, reg.At(), reg.Book());
    }
  }

  /** New settings: the same, or a new epoch with new covers. */
  method MoveSettings(reg: Registry, e: Event)
    requires e.Settings? && reg.Valid()
    modifies reg
    ensures reg.Valid() && reg.At() == CoreAfter(old(reg.At()), e) && CoreMoved(old(reg.At()), reg.At())
    ensures forall k :: k in old(reg.history) ==> k in reg.history && reg.history[k] == old(reg.history)[k]
  {
    ghost var a := reg.At();
    reg.SetSettings(e.settings, e.now, e.started);
    MovedByIds(a, reg.At());
  }

  /** Everything else stays in the epoch. */
  method MoveSame(reg: Registry, e: Event)
    requires !e.Drawn? && !e.Settings? && reg.Valid()
    modifies reg
    ensures reg.Valid() && reg.At() == CoreAfter(old(reg.At()), e) && old(reg.Book()).GrowsTo(reg.Book())
  {
    match e {
      case FrameStarts => reg.BeginFrame();
      case FrameEnds(now) => reg.EndFrame(now);
      case Warmed(play, now, started) => reg.Warm(play, now, started);
      case LoaderRuns(l, result) =>
        if l in reg.threads {
          reg.ThreadRuns(l, result);
        }
      case Pruned =>
    }
  }

  lemma GrownMoved(a: Core, before: Books, b: Core, after: Books)
    requires a.covers == before.covers && a.nextId == before.nextId
    requires b.covers == after.covers && b.nextId == after.nextId
    requires a.epoch == b.epoch && before.GrowsTo(after)
    ensures CoreMoved(a, b)
    ensures forall k :: k in before.history ==> k in after.history && after.history[k] == before.history[k]
  {
    MovedByIds(a, b);
  }

  /** The first events went as recorded. */
  ghost predicate Recorded(log: seq<Option<Look>>, trace: seq<Snap>, events: seq<Event>, drawn: seq<Option<Texture>>) {
    && |log| == |drawn| <= |events| && |trace| == |log| + 1
    && (forall m :: 0 <= m < |log| ==> trace[m + 1] == Step(trace[m], events[m]))
    && (forall m :: 0 <= m < |log| ==> log[m] == LookAt(trace[m], events[m]))
    && (forall m :: 0 <= m < |log| ==> drawn[m] == TextureAt(trace[m], events[m]))
    && (forall m :: 0 <= m < |log| ==> HandsRight(log[..m], trace[m], events[m], drawn[m]))
  }

  lemma RecordedMore(log: seq<Option<Look>>, trace: seq<Snap>, events: seq<Event>, drawn: seq<Option<Texture>>,
                     tex: Option<Texture>)
    requires Recorded(log, trace, events, drawn) && |log| < |events|
    requires var n := |log|; tex == TextureAt(trace[n], events[n]) && HandsRight(log, trace[n], events[n], tex)
    ensures var n := |log|;
            Recorded(log + [LookAt(trace[n], events[n])], trace + [Step(trace[n], events[n])], events, drawn + [tex])
  {
    var n := |log|;
    var log1, trace1, drawn1 := log + [LookAt(trace[n], events[n])], trace + [Step(trace[n], events[n])], drawn + [tex];
    forall m | 0 <= m <= n ensures HandsRight(log1[..m], trace1[m], events[m], drawn1[m]) {
      assert log1[..m] == log[..m] && log[..n] == log;
    }
  }

  lemma RecordedIsRight(log: seq<Option<Look>>, trace: seq<Snap>, events: seq<Event>, drawn: seq<Option<Texture>>)
    requires Recorded(log, trace, events, drawn) && |log| == |events|
    ensures Follows(trace, events) && forall n :: 0 <= n < |events| ==> DrawsRight(trace, events, n, drawn[n])
  {
    forall n | 0 <= n < |events| ensures DrawsRight(trace, events, n, drawn[n]) {
      LogIsTrace(log, trace, events, n);
      assert HandsRight(log[..n], trace[n], events[n], drawn[n]);
      assert trace[n + 1] == Step(trace[n], events[n]);
    }
  }

  /** A run of the core and the painter's cache, empty in the beginning: settings changes,
      evictions, retries, threads finishing, textures pruned, covers drawn, uploads that fail or
      not. trace: the state before every event, and after the last. */
  method Run(reg: Registry, cache: TextureCache, events: seq<Event>)
    returns (drawn: seq<Option<Texture>>, ghost trace: seq<Snap>)
    requires reg.Valid() && cache.textures == map[] && cache.epoch <= reg.epoch
    modifies reg, cache
    ensures reg.Valid() && |drawn| == |events| && Follows(trace, events)
    ensures trace[0] == old(Snap(reg.At(), cache.At())) && trace[|events|] == Snap(reg.At(), cache.At())
    ensures forall n :: 0 <= n < |events| ==> DrawsRight(trace, events, n, drawn[n])
  {
    drawn := [];
    trace := [Snap(reg.At(), cache.At())];
    ghost var log: seq<Option<Look>> := [];
    while |drawn| < |events|
      invariant reg.Valid() && Told(log, reg.At(), cache.At(), reg.history)
      invariant Recorded(log, trace, events, drawn)
      invariant trace[0] == old(Snap(reg.At(), cache.At())) && trace[|log|] == Snap(reg.At(), cache.At())
    {
      ghost var n := |log|;
      var tex := Handle(reg, cache, events[|drawn|], log);
      RecordedMore(log, trace, events, drawn, tex);
      log, trace := log + [LookAt(trace[n], events[n])], trace + [Step(trace[n], events[n])];
      drawn := drawn + [tex];
    }
    RecordedIsRight(log, trace, events, drawn);
  }

  /** The log of the first n events says what their trace says. */
  lemma LogIsTrace(log: seq<Option<Look>>, trace: seq<Snap>, events: seq<Event>, n: nat)
    requires |log| == |events| && |trace| == |events| + 1 && n <= |events|
    requires forall m :: 0 <= m < |log| ==> log[m] == LookAt(trace[m], events[m])
    ensures forall p :: LoggedFailure(log[..n], p) <==> FailedBefore(trace, events, n, p)
  {
    forall p | LoggedFailure(log[..n], p) ensures FailedBefore(trace, events, n, p) {
      var m :| 0 <= m < n && log[..n][m].Some? && log[..n][m].value.failed && log[..n][m].value.picture == p;
      assert FailsAt(trace[m], events[m], p);
    }
    forall p | FailedBefore(trace, events, n, p) ensures LoggedFailure(log[..n], p) {
      var m :| 0 <= m < n && FailsAt(trace[m], events[m], p);
      assert log[..n][m] == log[m];
    }
  }
}
