/**
 What the terminal shows after any run of frames, replay requests and clears.

 The terminal holds the cached images and every cached placement except the lost ones. A placement
 is lost when its image is uploaded again under the same host id while the placement counts as
 current: the upload deletes it and the display command is skipped. `LostAfter` tracks these keys
 from the cache alone.
 */
module GraphicsSimulation {
  import opened Options
  import opened GraphicsCache

  /** Every cached placement and every source refers to a cached image. */
  ghost predicate Consistent(c: Cache) {
    && (forall k :: k in c.placements ==> k.0 in c.images)
    && (forall s :: s in c.sources ==> c.sources[s] in c.images)
  }

  /** The terminal holds the cached images, and the cached placements other than the lost ones. */
  ghost predicate Mirrors(t: Terminal, c: Cache, lost: set<Key>) {
    && t.images == c.images
    && (forall k :: k in t.placements <==> k in c.placements && k !in lost)
    && (forall k :: k in t.placements ==> t.placements[k] == Drawn(c.placements[k].clipped, c.placements[k].z))
  }

  /** The update uploads the image again and skips the display. */
  predicate LosesPlacement(c: Cache, p: HostPlacement) {
    !Skipped(c, p) && !ImageCurrent(c, p) && PlacementCurrent(c, p)
  }

  function LostAfter(c: Cache, p: HostPlacement, lost: set<Key>): set<Key> {
    if Skipped(c, p) then lost
    else if !PlacementCurrent(c, p) then lost - {p.Key()}
    else if ImageCurrent(c, p) then lost
    else lost + {p.Key()}
  }

  // --- One update ---

  lemma UploadMirrors(c: Cache, t: Terminal, lost: set<Key>, p: HostPlacement)
    requires Consistent(c) && Mirrors(t, c, lost)
    ensures var (c', cs) := UploadStep(c, p);
            && Consistent(c') && Mirrors(ExecuteAll(t, cs), c', lost)
            && p.hostId in c'.images
            && (forall k :: k in c'.placements <==> k in c.placements && (ImageCurrent(c, p) || k.0 != p.hostId))
  {
    var (c', cs) := UploadStep(c, p);
    if !ImageCurrent(c, p) {
      if p.hostId in c.images {
        assert cs[1..] == [Upload(p.hostId, p.image)];
        var t1 := Execute(t, cs[0]);
        assert ExecuteAll(t, cs) == ExecuteAll(t1, cs[1..]) == Execute(t1, cs[1]);
        assert (t.images - {p.hostId})[p.hostId := p.image] == t.images[p.hostId := p.image];
      } else {
        assert ExecuteAll(t, cs) == Execute(t, cs[0]);
      }
    }
  }

  lemma ReleaseMirrors(c: Cache, t: Terminal, lost: set<Key>, source: SourceKey, id: nat)
    requires Consistent(c) && Mirrors(t, c, lost) && id in c.images
    ensures var (c', cs) := ReleaseStep(c, source, id);
            && Consistent(c') && Mirrors(ExecuteAll(t, cs), c', lost)
            && id in c'.images
            && (forall k :: k in c.placements && k.0 == id ==> k in c'.placements)
            && (forall k :: k in c'.placements ==> k in c.placements && c'.placements[k] == c.placements[k])
  {
    var (c', cs) := ReleaseStep(c, source, id);
    if cs != [] {
      assert ExecuteAll(t, cs) == Execute(t, cs[0]);
      var bound := c.sources[source := id];
      forall s | s in c'.sources
        ensures c'.sources[s] in c'.images
      {
        assert bound[s] in bound.Values;
      }
    }
  }

  /** One update keeps the terminal a mirror of the cache, up to the lost placements. */
  lemma UpdateMirrors(c: Cache, t: Terminal, lost: set<Key>, p: HostPlacement)
    requires Consistent(c) && Mirrors(t, c, lost)
    ensures var (c', cs) := Update(c, p);
            Consistent(c') && Mirrors(ExecuteAll(t, cs), c', LostAfter(c, p, lost))
  {
    if !Skipped(c, p) {
      var (c1, upload) := UploadStep(c, p);
      var (c2, release) := ReleaseStep(c1, p.source, p.hostId);
      var t1 := ExecuteAll(t, upload);
      var t2 := ExecuteAll(t1, release);
      UploadMirrors(c, t, lost, p);
      ReleaseMirrors(c1, t1, lost, p.source, p.hostId);
      var display := if PlacementCurrent(c, p) then [] else [Display(p.Key(), p.shown.value.clipped, p.shown.value.z)];
      ExecuteConcat(t, upload, release);
      ExecuteConcat(t, upload + release, display);
      assert ExecuteAll(t, Update(c, p).1) == ExecuteAll(t2, display);
      DisplayMirrors(c, c2, t2, lost, p);
    }
  }

  lemma DisplayMirrors(c: Cache, c2: Cache, t2: Terminal, lost: set<Key>, p: HostPlacement)
    requires !Skipped(c, p) && Mirrors(t2, c2, lost) && Consistent(c2) && p.hostId in c2.images
    requires PlacementCurrent(c, p) ==>
               if ImageCurrent(c, p) then p.Key() in c2.placements && Some(c2.placements[p.Key()]) == p.shown
               else p.Key() !in c2.placements
    ensures var display := if PlacementCurrent(c, p) then []
                           else [Display(p.Key(), p.shown.value.clipped, p.shown.value.z)];
            var c' := c2.(placements := c2.placements[p.Key() := p.shown.value]);
            Mirrors(ExecuteAll(t2, display), c', LostAfter(c, p, lost))
  {
    if !PlacementCurrent(c, p) {
      var display := [Display(p.Key(), p.shown.value.clipped, p.shown.value.z)];
      assert ExecuteAll(t2, display) == Execute(t2, display[0]);
    }
  }

  /** From a terminal in agreement, an update breaks the agreement exactly when it loses a placement. */
  lemma UpdateAgreesUnlessLost(c: Cache, t: Terminal, p: HostPlacement)
    requires Consistent(c) && Mirrors(t, c, {})
    ensures var (c', cs) := Update(c, p);
            && (Mirrors(ExecuteAll(t, cs), c', {}) <==> !LosesPlacement(c, p))
            && (LosesPlacement(c, p) ==> Mirrors(ExecuteAll(t, cs), c', {p.Key()}) && p.Key() in c'.placements)
  {
    UpdateMirrors(c, t, {}, p);
    if LosesPlacement(c, p) {
      var (c', cs) := Update(c, p);
      assert p.Key() in c'.placements && p.Key() !in ExecuteAll(t, cs).placements;
    }
  }

  /** The loss happens: a host id reused for another image under an unchanged placement. */
  lemma LossIsPossible(shown: PlacementSignature) returns (c: Cache, t: Terminal, p: HostPlacement)
    ensures Consistent(c) && Mirrors(t, c, {}) && LosesPlacement(c, p)
    ensures var (c', cs) := Update(c, p);
            p.Key() in c'.placements && p.Key() !in ExecuteAll(t, cs).placements
  {
    var before := ImageSignature(1, 1, 24, 3, 0);
    c := Cache(map[10 := before], map[(10, 1) := shown], map[TerminalImage(1, 1) := 10], false, {});
    t := Terminal(map[10 := before], map[(10, 1) := Drawn(shown.clipped, shown.z)]);
    p := HostPlacement(TerminalImage(1, 1), 10, 1, before.(fingerprint := 1), Some(shown), true);
    UpdateAgreesUnlessLost(c, t, p);
  }

  // --- Frames ---

  function LostAfterAll(c: Cache, ps: seq<HostPlacement>, lost: set<Key>): set<Key>
    decreases |ps|
  {
    if ps == [] then lost else LostAfterAll(Update(c, ps[0]).0, ps[1..], LostAfter(c, ps[0], lost))
  }

  lemma {:induction false} UpdateAllMirrors(c: Cache, t: Terminal, lost: set<Key>, ps: seq<HostPlacement>)
    requires Consistent(c) && Mirrors(t, c, lost)
    ensures var (c', cs) := UpdateAll(c, ps);
            Consistent(c') && Mirrors(ExecuteAll(t, cs), c', LostAfterAll(c, ps, lost))
    decreases |ps|
  {
    if ps != [] {
      var (next, first) := Update(c, ps[0]);
      var (final, rest) := UpdateAll(next, ps[1..]);
      UpdateMirrors(c, t, lost, ps[0]);
      UpdateAllMirrors(next, ExecuteAll(t, first), LostAfter(c, ps[0], lost), ps[1..]);
      ExecuteConcat(t, first, rest);
    }
  }

  lemma {:induction false} DropStaleMirrors(c: Cache, t: Terminal, lost: set<Key>, stale: seq<Key>)
    requires Consistent(c) && Mirrors(t, c, lost)
    ensures var (c', cs) := DropStale(c, stale);
            Consistent(c') && Mirrors(ExecuteAll(t, cs), c', lost)
    decreases |stale|
  {
    if stale != [] {
      var next := c.(placements := c.placements - {stale[0]}, replayed := c.replayed - {stale[0]});
      var (final, rest) := DropStale(next, stale[1..]);
      var t1 := Execute(t, DeletePlacement(stale[0]));
      DropStaleMirrors(next, t1, lost, stale[1..]);
      assert ([DeletePlacement(stale[0])] + rest)[1..] == rest;
    }
  }

  function LostAfterFrame(c: Cache, ps: seq<HostPlacement>, stale: seq<Key>, lost: set<Key>): set<Key> {
    LostAfterAll(DropStale(RetainSources(c, DesiredSources(ps)), stale).0, ps, lost)
  }

  lemma FrameMirrors(c: Cache, t: Terminal, lost: set<Key>, ps: seq<HostPlacement>, stale: seq<Key>)
    requires Consistent(c) && Mirrors(t, c, lost)
    ensures var (c', cs) := Frame(c, ps, stale);
            Consistent(c') && Mirrors(ExecuteAll(t, cs), c', LostAfterFrame(c, ps, stale, lost))
  {
    var retained := RetainSources(c, DesiredSources(ps));
    var (kept, drops) := DropStale(retained, stale);
    DropStaleMirrors(retained, t, lost, stale);
    UpdateAllMirrors(kept, ExecuteAll(t, drops), lost, ps);
    ExecuteConcat(t, drops, UpdateAll(kept, ps).1);
  }

  lemma {:induction false} ClearEmpties(t: Terminal, ids: seq<nat>)
    requires forall k :: k in t.placements ==> k.0 in t.images
    requires forall id :: id in t.images ==> id in ids
    ensures ExecuteAll(t, DeleteImages(ids)) == Terminal(map[], map[])
    decreases |ids|
  {
    if ids == [] {
      assert t.images == map[] && t.placements == map[];
    } else {
      assert DeleteImages(ids)[1..] == DeleteImages(ids[1..]);
      ClearEmpties(Execute(t, DeleteImage(ids[0])), ids[1..]);
    }
  }

  /** Retiring images keeps the mirror, and takes exactly the listed ids from cache and terminal. */
  lemma {:induction false} RetireMirrors(c: Cache, t: Terminal, lost: set<Key>, ids: seq<nat>)
    requires Consistent(c) && Mirrors(t, c, lost)
    ensures var (c', cs) := Retire(c, ids);
            var t' := ExecuteAll(t, cs);
            && Consistent(c') && Mirrors(t', c', lost)
            && (forall id :: id in t'.images <==> id in t.images && id !in ids)
            && (forall k :: k in t'.placements <==> k in t.placements && k.0 !in ids)
            && (forall k :: k in c'.placements <==> k in c.placements && k.0 !in ids)
            && (forall s :: s in c'.sources <==> s in c.sources && c.sources[s] !in ids)
            && (forall s :: s in c'.sources ==> c'.sources[s] == c.sources[s])
    decreases |ids|
  {
    if ids != [] {
      var next := ForgetImage(c, ids[0]);
      var (final, rest) := Retire(next, ids[1..]);
      assert forall id :: id in ids <==> id == ids[0] || id in ids[1..];
      if ids[0] in c.images {
        RetireMirrors(next, Execute(t, DeleteImage(ids[0])), lost, ids[1..]);
        assert ([DeleteImage(ids[0])] + rest)[1..] == rest;
      } else {
        assert next.images == c.images;
        RetireMirrors(next, t, lost, ids[1..]);
        assert [] + rest == rest;
      }
    }
  }

  // --- Whole runs ---

  datatype Event =
    | DrawFrame(placements: seq<HostPlacement>, stale: seq<Key>)
    | Replay
    | RetireImages(ids: seq<nat>)
    | Clear(ids: seq<nat>)

  /** The loop orders of the event list what the code iterates over. */
  ghost predicate Possible(c: Cache, e: Event) {
    match e
    case DrawFrame(ps, stale) => Enumerates(stale, StaleKeys(c, ps))
    case Replay => true
    case RetireImages(_) => true
    case Clear(ids) => Enumerates(ids, c.images.Keys)
  }

  function Apply(c: Cache, e: Event): (Cache, seq<Command>) {
    match e
    case DrawFrame(ps, stale) => Frame(c, ps, stale)
    case Replay => (RequestReplay(c), [])
    case RetireImages(ids) => Retire(c, ids)
    case Clear(ids) => (EmptyCache, DeleteImages(ids))
  }

  function LostAfterEvent(c: Cache, e: Event, lost: set<Key>): set<Key> {
    match e
    case DrawFrame(ps, stale) => LostAfterFrame(c, ps, stale, lost)
    case Replay => lost
    case RetireImages(_) => lost
    case Clear(_) => {}
  }

  /** The final cache, terminal and lost placements of a run. */
  function Run(c: Cache, t: Terminal, lost: set<Key>, events: seq<Event>): (Cache, Terminal, set<Key>)
    decreases |events|
  {
    if events == [] then (c, t, lost)
    else
      var (c', cs) := Apply(c, events[0]);
      Run(c', ExecuteAll(t, cs), LostAfterEvent(c, events[0], lost), events[1..])
  }

  ghost predicate PossibleRun(c: Cache, events: seq<Event>)
    decreases |events|
  {
    events == [] || (Possible(c, events[0]) && PossibleRun(Apply(c, events[0]).0, events[1..]))
  }

  lemma EventMirrors(c: Cache, t: Terminal, lost: set<Key>, e: Event)
    requires Consistent(c) && Mirrors(t, c, lost) && Possible(c, e)
    ensures var (c', cs) := Apply(c, e);
            Consistent(c') && Mirrors(ExecuteAll(t, cs), c', LostAfterEvent(c, e, lost))
  {
    match e
    case DrawFrame(ps, stale) => FrameMirrors(c, t, lost, ps, stale);
    case Replay =>
    case RetireImages(ids) => RetireMirrors(c, t, lost, ids);
    case Clear(ids) => ClearEmpties(t, ids);
  }

  /** After every run the terminal is the cache without the lost placements. */
  lemma {:induction false} RunMirrors(c: Cache, t: Terminal, lost: set<Key>, events: seq<Event>)
    requires Consistent(c) && Mirrors(t, c, lost) && PossibleRun(c, events)
    ensures var (c', t', lost') := Run(c, t, lost, events);
            Consistent(c') && Mirrors(t', c', lost')
    decreases |events|
  {
    if events != [] {
      var (c1, cs) := Apply(c, events[0]);
      EventMirrors(c, t, lost, events[0]);
      RunMirrors(c1, ExecuteAll(t, cs), LostAfterEvent(c, events[0], lost), events[1..]);
    }
  }

  // --- Host ids that keep their image ---

  /** No update of the frame gives a live host id another image under an unchanged placement. */
  predicate KeepsImages(c: Cache, ps: seq<HostPlacement>)
    decreases |ps|
  {
    ps == [] || (!LosesPlacement(c, ps[0]) && KeepsImages(Update(c, ps[0]).0, ps[1..]))
  }

  predicate RunKeepsImages(c: Cache, events: seq<Event>)
    decreases |events|
  {
    events == [] ||
    var e := events[0];
    && (e.DrawFrame? ==>
          KeepsImages(DropStale(RetainSources(c, DesiredSources(e.placements)), e.stale).0, e.placements))
    && RunKeepsImages(Apply(c, e).0, events[1..])
  }

  lemma {:induction false} NothingLostInUpdates(c: Cache, ps: seq<HostPlacement>)
    requires KeepsImages(c, ps)
    ensures LostAfterAll(c, ps, {}) == {}
    decreases |ps|
  {
    if ps != [] {
      assert LostAfter(c, ps[0], {}) == {};
      NothingLostInUpdates(Update(c, ps[0]).0, ps[1..]);
    }
  }

  /** A run whose live host ids keep their images leaves terminal and cache in agreement. */
  lemma {:induction false} RunAgrees(c: Cache, t: Terminal, events: seq<Event>)
    requires Consistent(c) && Mirrors(t, c, {}) && PossibleRun(c, events) && RunKeepsImages(c, events)
    ensures var (c', t', lost') := Run(c, t, {}, events);
            lost' == {} && Consistent(c') && Mirrors(t', c', {})
    decreases |events|
  {
    if events != [] {
      var e := events[0];
      EventMirrors(c, t, {}, e);
      if e.DrawFrame? {
        NothingLostInUpdates(DropStale(RetainSources(c, DesiredSources(e.placements)), e.stale).0, e.placements);
      }
      var (c1, cs) := Apply(c, e);
      RunAgrees(c1, ExecuteAll(t, cs), events[1..]);
    }
  }

  // --- Host ids derived from the image ---

  ghost predicate CacheNames(image: nat -> ImageSignature, c: Cache) {
    forall id :: id in c.images ==> c.images[id] == image(id)
  }

  ghost predicate FrameNames(image: nat -> ImageSignature, ps: seq<HostPlacement>) {
    forall p :: p in ps ==> p.image == image(p.hostId)
  }

  /** An update leaves each image as it was or, under its own host id, makes it the placement's. */
  lemma UpdateImageValues(c: Cache, p: HostPlacement, id: nat)
    requires id in Update(c, p).0.images
    ensures || (id in c.images && Update(c, p).0.images[id] == c.images[id])
            || (id == p.hostId && Update(c, p).0.images[id] == p.image)
  {
  }

  lemma NamedUpdateKeepsImages(image: nat -> ImageSignature, c: Cache, p: HostPlacement)
    requires Consistent(c) && CacheNames(image, c) && p.image == image(p.hostId)
    ensures !LosesPlacement(c, p)
    ensures Consistent(Update(c, p).0) && CacheNames(image, Update(c, p).0)
  {
    var t := Terminal(c.images, map k | k in c.placements :: Drawn(c.placements[k].clipped, c.placements[k].z));
    UpdateMirrors(c, t, {}, p);
    hide Update;
    forall id | id in Update(c, p).0.images
      ensures Update(c, p).0.images[id] == image(id)
    {
      UpdateImageValues(c, p, id);
    }
  }

  lemma {:induction false} NamedFrameKeepsImages(image: nat -> ImageSignature, c: Cache, ps: seq<HostPlacement>)
    requires Consistent(c) && CacheNames(image, c) && FrameNames(image, ps)
    ensures KeepsImages(c, ps)
    ensures Consistent(UpdateAll(c, ps).0) && CacheNames(image, UpdateAll(c, ps).0)
    decreases |ps|
  {
    if ps != [] {
      NamedUpdateKeepsImages(image, c, ps[0]);
      NamedFrameKeepsImages(image, Update(c, ps[0]).0, ps[1..]);
    }
  }

  lemma {:induction false} DropStaleKeepsImages(c: Cache, stale: seq<Key>)
    ensures var c' := DropStale(c, stale).0;
            && c'.images == c.images && c'.sources == c.sources && c'.replay == c.replay
            && (forall k :: k in c'.placements <==> k in c.placements && k !in stale)
            && (forall k :: k in c'.placements ==> c'.placements[k] == c.placements[k])
            && c'.replayed <= c.replayed
    decreases |stale|
  {
    if stale != [] {
      var next := c.(placements := c.placements - {stale[0]}, replayed := c.replayed - {stale[0]});
      DropStaleKeepsImages(next, stale[1..]);
    }
  }

  lemma {:induction false} RetireKeepsImages(c: Cache, ids: seq<nat>)
    ensures var c' := Retire(c, ids).0;
            && (forall id :: id in c'.images ==> id in c.images && c'.images[id] == c.images[id])
            && (Consistent(c) ==> Consistent(c'))
            && c'.replay == c.replay && c'.replayed <= c.replayed
    decreases |ids|
  {
    if ids != [] {
      RetireKeepsImages(ForgetImage(c, ids[0]), ids[1..]);
    }
  }

  /** When a host id always stands for the same image, the hypothesis of `RunAgrees` holds by itself. */
  lemma {:induction false} NamedRunKeepsImages(image: nat -> ImageSignature, c: Cache, events: seq<Event>)
    requires Consistent(c) && CacheNames(image, c) && PossibleRun(c, events)
    requires forall e :: e in events && e.DrawFrame? ==> FrameNames(image, e.placements)
    ensures RunKeepsImages(c, events)
    decreases |events|
  {
    if events != [] {
      var e := events[0];
      if e.DrawFrame? {
        var retained := RetainSources(c, DesiredSources(e.placements));
        DropStaleKeepsImages(retained, e.stale);
        assert FrameNames(image, e.placements);
        NamedFrameKeepsImages(image, DropStale(retained, e.stale).0, e.placements);
      }
      if e.RetireImages? {
        RetireKeepsImages(c, e.ids);
      }
      NamedRunKeepsImages(image, Apply(c, e).0, events[1..]);
    }
  }

  /** From the empty cache and terminal, ids that name images never diverge, however long the run. */
  lemma NamedIdsNeverDiverge(image: nat -> ImageSignature, events: seq<Event>)
    requires PossibleRun(EmptyCache, events)
    requires forall e :: e in events && e.DrawFrame? ==> FrameNames(image, e.placements)
    ensures var (c', t', _) := Run(EmptyCache, Terminal(map[], map[]), {}, events);
            Consistent(c') && Mirrors(t', c', {})
  {
    NamedRunKeepsImages(image, EmptyCache, events);
    RunAgrees(EmptyCache, Terminal(map[], map[]), events);
  }
}
