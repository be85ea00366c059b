/** What one well-formed frame achieves, whatever the cache held before it. */
module GraphicsFrames {
  import opened Options
  import opened GraphicsCache
  import opened GraphicsSimulation

  /** Two visible placements of one frame fit together. */
  predicate Compatible(p: HostPlacement, q: HostPlacement) {
    && p.Key() != q.Key()
    && (p.source == q.source ==> p.hostId == q.hostId)
    && (p.hostId == q.hostId ==> p.image == q.image)
  }

  /** Visible placements have distinct keys, one host id per source, one image per host id. */
  ghost predicate WellFormed(ps: seq<HostPlacement>) {
    forall i, j :: 0 <= i < j < |ps| && ps[i].shown.Some? && ps[j].shown.Some? ==> Compatible(ps[i], ps[j])
  }

  predicate SharesImage(p: HostPlacement, earlier: seq<HostPlacement>) {
    exists q :: q in earlier && q.shown.Some? && q.hostId == p.hostId
  }

  /**
   Data comes with a visible placement, or its image is there without: an earlier placement shows
   it, or it is cached for the placement's source. `done` are the placements before `ps`.
   */
  ghost predicate Supplied(c: Cache, done: seq<HostPlacement>, ps: seq<HostPlacement>) {
    forall i :: 0 <= i < |ps| && ps[i].shown.Some? ==>
      ps[i].hasData || SharesImage(ps[i], done + ps[..i]) || (ImageCurrent(c, ps[i]) && SourceCurrent(c, ps[i]))
  }

  /** A visible placement is cached with its image, its source and its signature. */
  predicate Settled(c: Cache, p: HostPlacement) {
    p.shown.Some? ==>
      ImageCurrent(c, p) && SourceCurrent(c, p) && p.Key() in c.placements && Some(c.placements[p.Key()]) == p.shown
  }

  lemma UpdateSettles(c: Cache, p: HostPlacement)
    requires p.shown.Some? ==> p.hasData || ImageCurrent(c, p)
    ensures Settled(Update(c, p).0, p)
  {
  }

  /** An update keeps the image of every compatible placement that is cached for its source. */
  lemma UpdateKeepsCurrent(c: Cache, p: HostPlacement, q: HostPlacement)
    requires ImageCurrent(c, q) && SourceCurrent(c, q) && (p.shown.Some? ==> Compatible(p, q))
    ensures ImageCurrent(Update(c, p).0, q) && SourceCurrent(Update(c, p).0, q)
  {
    if !Skipped(c, p) {
      var bound := UploadStep(c, p).0.sources[p.source := p.hostId];
      assert bound[q.source] == q.hostId && q.hostId in bound.Values;
    }
  }

  lemma UpdateKeepsSettled(c: Cache, p: HostPlacement, q: HostPlacement)
    requires Settled(c, q) && (p.shown.Some? && q.shown.Some? ==> Compatible(p, q))
    ensures Settled(Update(c, p).0, q)
  {
    if q.shown.Some? && !Skipped(c, p) {
      var uploaded := UploadStep(c, p).0;
      assert Settled(uploaded, q);
      var bound := uploaded.sources[p.source := p.hostId];
      assert bound[q.source] == q.hostId && q.hostId in bound.Values;
    }
  }

  /** Nothing but the placement's own key and source is added, and the replay flag stays. */
  lemma UpdateAddsOwnKey(c: Cache, p: HostPlacement)
    ensures var c' := Update(c, p).0;
            && c'.placements.Keys <= c.placements.Keys + (if p.shown.Some? then {p.Key()} else {})
            && c'.sources.Keys <= c.sources.Keys + {p.source}
            && c'.replay == c.replay
            && c'.replayed <= c.replayed + (if p.shown.Some? then {p.Key()} else {})
  {
  }

  // --- What one update sends and frees ---

  /** The image that the placement's source showed before and no other source shows. */
  predicate Superseded(c: Cache, p: HostPlacement, id: nat) {
    && p.source in c.sources && c.sources[p.source] == id && id != p.hostId
    && forall s :: s in c.sources && s != p.source ==> c.sources[s] != id
  }

  /** An update frees exactly the superseded image, and keeps every image another source shows. */
  lemma UpdateFreesSuperseded(c: Cache, p: HostPlacement, id: nat)
    requires !Skipped(c, p)
    ensures id in Update(c, p).0.images <==> id == p.hostId || (id in c.images && !Superseded(c, p, id))
    ensures DeleteImage(id) in Update(c, p).1 <==>
              Superseded(c, p, id) || (id == p.hostId && id in c.images && !ImageCurrent(c, p))
  {
    var uploaded := UploadStep(c, p).0;
    assert uploaded.sources == c.sources;
    if p.source in c.sources && c.sources[p.source] != p.hostId {
      OthersShow(c.sources, p.source, p.hostId);
    }
  }

  /** After rebinding a source, its previous image is still shown exactly when another source shows it. */
  lemma OthersShow(sources: map<SourceKey, nat>, source: SourceKey, id: nat)
    requires source in sources && sources[source] != id
    ensures var previous := sources[source];
            previous in sources[source := id].Values <==>
              exists s :: s in sources && s != source && sources[s] == previous
  {
    var previous := sources[source];
    var bound := sources[source := id];
    if previous in bound.Values {
      var s :| s in bound && bound[s] == previous;
      assert s in sources && s != source && sources[s] == previous;
    }
    if s :| s in sources && s != source && sources[s] == previous {
      assert bound[s] == previous;
    }
  }

  /** A placement that is clipped away, or whose image is neither cached nor supplied, changes nothing. */
  lemma UpdateWithoutDataDoesNothing(c: Cache, p: HostPlacement)
    requires p.shown.None? || (!p.hasData && !(p.hostId in c.images && c.images[p.hostId] == p.image))
    ensures Update(c, p) == (c, [])
  {
  }

  /** An update uploads exactly an image that is not cached, and has its placement cached with its image and source. */
  lemma UpdateUploadsMissing(c: Cache, p: HostPlacement)
    requires p.shown.Some? && (p.hasData || (p.hostId in c.images && c.images[p.hostId] == p.image))
    ensures Upload(p.hostId, p.image) in Update(c, p).1 <==> !(p.hostId in c.images && c.images[p.hostId] == p.image)
    ensures var c' := Update(c, p).0;
            && p.hostId in c'.images && c'.images[p.hostId] == p.image
            && p.Key() in c'.placements && c'.placements[p.Key()] == p.shown.value
            && p.source in c'.sources && c'.sources[p.source] == p.hostId
  {
    UpdateSettles(c, p);
    hide Settled;
    assert Settled(Update(c, p).0, p);
    SettledMeans(Update(c, p).0, p);
  }

  lemma SettledMeans(c: Cache, p: HostPlacement)
    requires Settled(c, p) && p.shown.Some?
    ensures p.hostId in c.images && c.images[p.hostId] == p.image
    ensures p.Key() in c.placements && c.placements[p.Key()] == p.shown.value
    ensures p.source in c.sources && c.sources[p.source] == p.hostId
  {
  }

  /** A second update with the same placement is silent, even while a replay is pending. */
  lemma UpdateIsIdempotent(c: Cache, p: HostPlacement)
    ensures var c' := Update(c, p).0;
            Update(c', p) == (c', [])
  {
    var c' := Update(c, p).0;
    if !Skipped(c, p) {
      UpdateSettles(c, p);
      UpdateMarksReplayed(c, p);
    }
  }

  lemma UpdateMarksReplayed(c: Cache, p: HostPlacement)
    requires !Skipped(c, p)
    ensures var c' := Update(c, p).0;
            c'.replay == c.replay && (c.replay ==> p.Key() in c'.replayed)
  {
  }

  /** Every upload goes to a free id and every display finds its image. */
  predicate Effective(t: Terminal, cs: seq<Command>)
    decreases |cs|
  {
    cs != [] ==>
      && (cs[0].Upload? ==> cs[0].id !in t.images)
      && (cs[0].Display? ==> cs[0].key.0 in t.images)
      && Effective(Execute(t, cs[0]), cs[1..])
  }

  lemma {:induction false} EffectiveConcat(t: Terminal, a: seq<Command>, b: seq<Command>)
    ensures Effective(t, a + b) <==> Effective(t, a) && Effective(ExecuteAll(t, a), b)
    decreases |a|
  {
    if a == [] {
      assert a + b == b;
    } else {
      assert (a + b)[1..] == a[1..] + b;
      EffectiveConcat(Execute(t, a[0]), a[1..], b);
    }
  }

  lemma UploadIsEffective(c: Cache, t: Terminal, p: HostPlacement)
    requires t.images == c.images
    ensures Effective(t, UploadStep(c, p).1)
  {
    var cs := UploadStep(c, p).1;
    if |cs| == 2 {
      assert cs[1..][1..] == [] && cs[1..][0] == cs[1];
    }
  }

  lemma UpdateIsEffective(c: Cache, t: Terminal, lost: set<Key>, p: HostPlacement)
    requires Consistent(c) && Mirrors(t, c, lost)
    ensures Effective(t, Update(c, p).1)
  {
    if !Skipped(c, p) {
      var (c1, upload) := UploadStep(c, p);
      var (c2, release) := ReleaseStep(c1, p.source, p.hostId);
      var t1 := ExecuteAll(t, upload);
      var display := if PlacementCurrent(c, p) then [] else [Display(p.Key(), p.shown.value.clipped, p.shown.value.z)];
      UploadIsEffective(c, t, p);
      UploadMirrors(c, t, lost, p);
      ReleaseMirrors(c1, t1, lost, p.source, p.hostId);
      EffectiveConcat(t, upload, release);
      EffectiveConcat(t, upload + release, display);
      ExecuteConcat(t, upload, release);
      hide UploadStep, ReleaseStep, Execute, ExecuteAll;
      assert Effective(ExecuteAll(t1, release), display);
    }
  }

  lemma {:induction false} UpdateAllIsEffective(c: Cache, t: Terminal, lost: set<Key>, ps: seq<HostPlacement>)
    requires Consistent(c) && Mirrors(t, c, lost)
    ensures Effective(t, UpdateAll(c, ps).1)
    decreases |ps|
  {
    if ps != [] {
      var (next, first) := Update(c, ps[0]);
      UpdateIsEffective(c, t, lost, ps[0]);
      UpdateMirrors(c, t, lost, ps[0]);
      UpdateAllIsEffective(next, ExecuteAll(t, first), LostAfter(c, ps[0], lost), ps[1..]);
      EffectiveConcat(t, first, UpdateAll(next, ps[1..]).1);
    }
  }

  lemma {:induction false} DropsAreEffective(c: Cache, t: Terminal, stale: seq<Key>)
    ensures Effective(t, DropStale(c, stale).1)
    decreases |stale|
  {
    if stale != [] {
      var next := c.(placements := c.placements - {stale[0]}, replayed := c.replayed - {stale[0]});
      DropsAreEffective(next, Execute(t, DeletePlacement(stale[0])), stale[1..]);
      assert DropStale(c, stale).1[1..] == DropStale(next, stale[1..]).1;
    }
  }

  /** No frame uploads over an image the terminal holds, or displays one it does not hold. */
  lemma FrameIsEffective(c: Cache, t: Terminal, lost: set<Key>, ps: seq<HostPlacement>, stale: seq<Key>)
    requires Consistent(c) && Mirrors(t, c, lost)
    ensures Effective(t, Frame(c, ps, stale).1)
  {
    var retained := RetainSources(c, DesiredSources(ps));
    var (kept, drops) := DropStale(retained, stale);
    DropsAreEffective(retained, t, stale);
    DropStaleMirrors(retained, t, lost, stale);
    UpdateAllIsEffective(kept, ExecuteAll(t, drops), lost, ps);
    EffectiveConcat(t, drops, UpdateAll(kept, ps).1);
  }

  ghost predicate UploadsOnce(cs: seq<Command>) {
    forall i, j :: 0 <= i < j < |cs| && cs[i].Upload? && cs[j].Upload? ==> cs[i].id != cs[j].id
  }

  ghost predicate UploadsNone(cs: seq<Command>, id: nat) {
    forall x :: x in cs && x.Upload? ==> x.id != id
  }

  lemma UpdateUploads(c: Cache, p: HostPlacement)
    ensures UploadsOnce(Update(c, p).1)
    ensures forall x :: x in Update(c, p).1 && x.Upload? ==> x.id == p.hostId && !Skipped(c, p) && !ImageCurrent(c, p)
    ensures !Skipped(c, p) ==> Settled(Update(c, p).0, p)
  {
  }

  lemma {:induction false} SettledIsNotUploaded(c: Cache, q: HostPlacement, ps: seq<HostPlacement>)
    requires Settled(c, q) && q.shown.Some?
    requires forall p :: p in ps && p.shown.Some? ==> Compatible(p, q)
    ensures UploadsNone(UpdateAll(c, ps).1, q.hostId)
    decreases |ps|
  {
    if ps != [] {
      UpdateUploads(c, ps[0]);
      UpdateKeepsSettled(c, ps[0], q);
      SettledIsNotUploaded(Update(c, ps[0]).0, q, ps[1..]);
    }
  }

  lemma {:induction false} UpdateAllUploadsOnce(c: Cache, ps: seq<HostPlacement>)
    requires WellFormed(ps)
    ensures UploadsOnce(UpdateAll(c, ps).1)
    decreases |ps|
  {
    if ps != [] {
      var (next, first) := Update(c, ps[0]);
      UpdateUploads(c, ps[0]);
      UpdateAllUploadsOnce(next, ps[1..]);
      if !Skipped(c, ps[0]) {
        forall p | p in ps[1..] && p.shown.Some?
          ensures Compatible(p, ps[0])
        {
          var i :| 0 <= i < |ps[1..]| && ps[1..][i] == p;
          assert ps[i + 1] == p;
        }
        SettledIsNotUploaded(next, ps[0], ps[1..]);
      }
      OnceConcat(first, UpdateAll(next, ps[1..]).1, ps[0].hostId);
    }
  }

  lemma OnceConcat(a: seq<Command>, b: seq<Command>, id: nat)
    requires UploadsOnce(a) && UploadsOnce(b)
    requires forall x :: x in a && x.Upload? ==> x.id == id && UploadsNone(b, id)
    ensures UploadsOnce(a + b)
  {
    forall i, j | 0 <= i < j < |a + b| && (a + b)[i].Upload? && (a + b)[j].Upload?
      ensures (a + b)[i].id != (a + b)[j].id
    {
      if i < |a| <= j {
        assert a[i] in a && b[j - |a|] in b;
      }
    }
  }

  lemma {:induction false} DropsUploadNothing(c: Cache, stale: seq<Key>)
    ensures forall x :: x in DropStale(c, stale).1 ==> x.DeletePlacement?
    decreases |stale|
  {
    if stale != [] {
      var next := c.(placements := c.placements - {stale[0]}, replayed := c.replayed - {stale[0]});
      DropsUploadNothing(next, stale[1..]);
    }
  }

  /** A well-formed frame uploads under each host id at most once. */
  lemma FrameUploadsOnce(c: Cache, ps: seq<HostPlacement>, stale: seq<Key>)
    requires WellFormed(ps)
    ensures UploadsOnce(Frame(c, ps, stale).1)
  {
    hide UpdateAll, DropStale;
    var (kept, drops) := DropStale(RetainSources(c, DesiredSources(ps)), stale);
    DropsUploadNothing(RetainSources(c, DesiredSources(ps)), stale);
    UpdateAllUploadsOnce(kept, ps);
    assert forall i :: 0 <= i < |drops| ==> drops[i] in drops;
    OnceConcat(drops, UpdateAll(kept, ps).1, 0);
  }

  // --- What a frame caches ---

  lemma WellFormedHead(done: seq<HostPlacement>, ps: seq<HostPlacement>)
    requires WellFormed(done + ps) && ps != []
    ensures forall q :: (q in done || q in ps[1..]) && q.shown.Some? && ps[0].shown.Some? ==> Compatible(ps[0], q)
    ensures done + ps == (done + [ps[0]]) + ps[1..]
  {
    var all := done + ps;
    assert all[|done|] == ps[0];
    forall q | (q in done || q in ps[1..]) && q.shown.Some? && ps[0].shown.Some?
      ensures Compatible(ps[0], q)
    {
      if q in done {
        var i :| 0 <= i < |done| && done[i] == q;
        assert all[i] == q;
      } else {
        var i :| 0 <= i < |ps[1..]| && ps[1..][i] == q;
        assert all[|done| + i + 1] == q;
      }
    }
  }

  /** The head of a supplied list has data or its image, and the rest stays supplied after it. */
  lemma SuppliedHead(c: Cache, done: seq<HostPlacement>, ps: seq<HostPlacement>)
    requires WellFormed(done + ps) && Supplied(c, done, ps) && ps != []
    requires forall q :: q in done ==> Settled(c, q)
    ensures ps[0].shown.Some? ==> ps[0].hasData || ImageCurrent(c, ps[0])
    ensures Supplied(Update(c, ps[0]).0, done + [ps[0]], ps[1..])
  {
    hide Update;
    var (p, rest) := (ps[0], ps[1..]);
    WellFormedHead(done, ps);
    assert done + ps[..0] == done;
    forall i | 0 <= i < |rest| && rest[i].shown.Some?
      ensures rest[i].hasData || SharesImage(rest[i], done + [p] + rest[..i])
              || (ImageCurrent(Update(c, p).0, rest[i]) && SourceCurrent(Update(c, p).0, rest[i]))
    {
      var q := rest[i];
      assert ps[i + 1] == q && done + ps[..i + 1] == done + [p] + rest[..i];
      if ImageCurrent(c, q) && SourceCurrent(c, q) {
        UpdateKeepsCurrent(c, p, q);
      }
    }
  }

  lemma {:induction false} UpdateAllSettles(c: Cache, done: seq<HostPlacement>, ps: seq<HostPlacement>)
    requires WellFormed(done + ps) && Supplied(c, done, ps) && forall q :: q in done ==> Settled(c, q)
    ensures forall q :: q in done + ps ==> Settled(UpdateAll(c, ps).0, q)
    decreases |ps|
  {
    hide WellFormed, Settled, Supplied, Update;
    if ps != [] {
      WellFormedHead(done, ps);
      SuppliedHead(c, done, ps);
      HeadSettles(c, done, ps);
      UpdateAllSettles(Update(c, ps[0]).0, done + [ps[0]], ps[1..]);
    }
  }

  lemma HeadSettles(c: Cache, done: seq<HostPlacement>, ps: seq<HostPlacement>)
    requires WellFormed(done + ps) && Supplied(c, done, ps) && ps != []
    requires forall q :: q in done ==> Settled(c, q)
    ensures forall q :: q in done + [ps[0]] ==> Settled(Update(c, ps[0]).0, q)
  {
    hide Update, Settled;
    WellFormedHead(done, ps);
    SuppliedHead(c, done, ps);
    UpdateSettles(c, ps[0]);
    forall q | q in done
      ensures Settled(Update(c, ps[0]).0, q)
    {
      UpdateKeepsSettled(c, ps[0], q);
    }
  }

  lemma {:induction false} UpdateAllAddsOwnKeys(c: Cache, ps: seq<HostPlacement>)
    ensures var c' := UpdateAll(c, ps).0;
            && c'.placements.Keys <= c.placements.Keys + DesiredKeys(ps)
            && c'.sources.Keys <= c.sources.Keys + DesiredSources(ps)
    decreases |ps|
  {
    if ps != [] {
      UpdateAddsOwnKey(c, ps[0]);
      UpdateAllAddsOwnKeys(Update(c, ps[0]).0, ps[1..]);
      assert ps[0] in ps && forall p :: p in ps[1..] ==> p in ps;
    }
  }

  /** The frame's visible placements with their signatures, and nothing else. */
  ghost predicate CachesExactly(c: Cache, ps: seq<HostPlacement>) {
    && c.placements.Keys == DesiredKeys(ps)
    && forall p :: p in ps ==> Settled(c, p)
  }

  /** After a well-formed frame the cached placements are exactly the visible ones. */
  lemma FrameCachesExactly(c: Cache, ps: seq<HostPlacement>, stale: seq<Key>)
    requires WellFormed(ps) && Supplied(c, [], ps) && Enumerates(stale, StaleKeys(c, ps))
    ensures var c' := Frame(c, ps, stale).0;
            && CachesExactly(c', ps)
            && c'.sources.Keys <= DesiredSources(ps)
            && !c'.replay && c'.replayed == {}
  {
    hide UpdateAll, DropStale, Settled;
    var retained := RetainSources(c, DesiredSources(ps));
    var kept := DropStale(retained, stale).0;
    DropStaleKeepsImages(retained, stale);
    assert [] + ps == ps;
    KeptIsSupplied(c, kept, ps);
    UpdateAllSettles(kept, [], ps);
    UpdateAllAddsOwnKeys(kept, ps);
    var updated := UpdateAll(kept, ps).0;
    forall k | k in DesiredKeys(ps)
      ensures k in updated.placements
    {
      var p :| p in ps && p.shown.Some? && p.Key() == k;
      assert Settled(updated, p);
      SettledIsCached(updated, p);
    }
    forall p | p in ps
      ensures Settled(updated.(replay := false, replayed := {}), p)
    {
      SettledIgnoresReplay(updated, p);
    }
  }

  lemma KeptIsSupplied(c: Cache, kept: Cache, ps: seq<HostPlacement>)
    requires Supplied(c, [], ps)
    requires kept.images == c.images && kept.sources == RetainSources(c, DesiredSources(ps)).sources
    ensures Supplied(kept, [], ps)
  {
    assert forall i :: 0 <= i < |ps| ==> ps[i].source in DesiredSources(ps);
  }

  lemma SettledIsCached(c: Cache, p: HostPlacement)
    requires Settled(c, p) && p.shown.Some?
    ensures p.Key() in c.placements
  {
  }

  lemma SettledIgnoresReplay(c: Cache, p: HostPlacement)
    requires Settled(c, p)
    ensures Settled(c.(replay := false, replayed := {}), p)
  {
  }

  lemma {:induction false} SettledUpdatesAreSilent(c: Cache, ps: seq<HostPlacement>)
    requires !c.replay && forall p :: p in ps ==> Settled(c, p)
    ensures UpdateAll(c, ps) == (c, [])
    decreases |ps|
  {
    if ps != [] {
      assert Settled(c, ps[0]);
      assert Update(c, ps[0]) == (c, []);
      SettledUpdatesAreSilent(c, ps[1..]);
      var (next, first) := Update(c, ps[0]);
      var (final, rest) := UpdateAll(next, ps[1..]);
      assert UpdateAll(c, ps) == (final, first + rest) && first + rest == [];
    }
  }

  lemma HeadIsListed(keys: seq<Key>)
    ensures keys != [] ==> keys[0] in keys
  {
  }

  /** The same placements, whether or not they bring their data along. */
  ghost predicate SamePlacements(ps: seq<HostPlacement>, qs: seq<HostPlacement>) {
    |ps| == |qs| && forall i :: 0 <= i < |ps| ==> qs[i] == ps[i].(hasData := qs[i].hasData)
  }

  lemma SameDesires(ps: seq<HostPlacement>, qs: seq<HostPlacement>)
    requires SamePlacements(ps, qs)
    ensures DesiredKeys(qs) == DesiredKeys(ps) && DesiredSources(qs) == DesiredSources(ps)
  {
    forall i | 0 <= i < |ps|
      ensures ps[i].source in DesiredSources(qs) && qs[i].source in DesiredSources(ps)
      ensures ps[i].shown.Some? ==> ps[i].Key() in DesiredKeys(qs) && ps[i].Key() in DesiredKeys(ps)
      ensures qs[i].shown.Some? ==> qs[i].Key() in DesiredKeys(ps) && qs[i].Key() in DesiredKeys(qs)
    {
      assert ps[i] in ps && qs[i] in qs;
      assert qs[i].Key() == ps[i].Key() && qs[i].source == ps[i].source && qs[i].shown == ps[i].shown;
    }
  }

  lemma SameSettle(c: Cache, ps: seq<HostPlacement>, qs: seq<HostPlacement>)
    requires SamePlacements(ps, qs) && forall p :: p in ps ==> Settled(c, p)
    ensures forall q :: q in qs ==> Settled(c, q)
  {
    forall i | 0 <= i < |qs|
      ensures Settled(c, qs[i])
    {
      assert Settled(c, ps[i]);
    }
  }

  /** Drawing the same frame again, with or without data, emits nothing and changes nothing. */
  lemma RepeatedFrameIsSilent(c: Cache, ps: seq<HostPlacement>, stale: seq<Key>, qs: seq<HostPlacement>,
                              stale': seq<Key>)
    requires WellFormed(ps) && Supplied(c, [], ps) && Enumerates(stale, StaleKeys(c, ps))
    requires SamePlacements(ps, qs) && Enumerates(stale', StaleKeys(Frame(c, ps, stale).0, qs))
    ensures Frame(Frame(c, ps, stale).0, qs, stale') == (Frame(c, ps, stale).0, [])
  {
    hide Frame, Settled, SamePlacements, DesiredKeys, DesiredSources, WellFormed, Supplied;
    FrameCachesExactly(c, ps, stale);
    var c' := Frame(c, ps, stale).0;
    SameDesires(ps, qs);
    SameSettle(c', ps, qs);
    assert StaleKeys(c', qs) == {};
    HeadIsListed(stale');
    assert RetainSources(c', DesiredSources(qs)) == c';
    SettledUpdatesAreSilent(c', qs);
    NothingToDo(c', qs);
  }

  lemma NothingToDo(c: Cache, ps: seq<HostPlacement>)
    requires RetainSources(c, DesiredSources(ps)) == c && UpdateAll(c, ps) == (c, [])
    requires !c.replay && c.replayed == {}
    ensures Frame(c, ps, []) == (c, [])
  {
    hide UpdateAll;
    assert DropStale(c, []) == (c, []);
    var none: seq<Command> := [];
    assert none + none == none;
    assert c.(replay := false, replayed := {}) == c;
  }

  /** The terminal then shows exactly the visible placements, if nothing was lost on the way. */
  lemma FrameIsOnScreen(c: Cache, t: Terminal, ps: seq<HostPlacement>, stale: seq<Key>, p: HostPlacement)
    requires Consistent(c) && Mirrors(t, c, {}) && Enumerates(stale, StaleKeys(c, ps))
    requires WellFormed(ps) && Supplied(c, [], ps)
    requires KeepsImages(DropStale(RetainSources(c, DesiredSources(ps)), stale).0, ps)
    requires p in ps && p.shown.Some?
    ensures var t' := ExecuteAll(t, Frame(c, ps, stale).1);
            && t'.placements.Keys == DesiredKeys(ps)
            && t'.placements[p.Key()] == Drawn(p.shown.value.clipped, p.shown.value.z)
            && p.hostId in t'.images && t'.images[p.hostId] == p.image
  {
    hide Frame, Update, UpdateAll, DropStale, KeepsImages, WellFormed, Supplied;
    FrameMirrors(c, t, {}, ps, stale);
    NothingLostInUpdates(DropStale(RetainSources(c, DesiredSources(ps)), stale).0, ps);
    FrameCachesExactly(c, ps, stale);
    var t' := ExecuteAll(t, Frame(c, ps, stale).1);
    assert Settled(Frame(c, ps, stale).0, p);
    assert t'.placements.Keys == Frame(c, ps, stale).0.placements.Keys;
  }

  // --- Replay ---

  lemma UpdateRedisplays(c: Cache, p: HostPlacement, lost: set<Key>)
    requires c.replay && p.Key() !in c.replayed && p.shown.Some? && (p.hasData || ImageCurrent(c, p))
    ensures p.Key() !in LostAfter(c, p, lost)
  {
  }

  lemma OwnKeyIsNew(done: seq<HostPlacement>, p: HostPlacement)
    requires p.shown.Some? && forall q :: q in done && q.shown.Some? ==> Compatible(p, q)
    ensures p.Key() !in DesiredKeys(done)
  {
  }

  lemma {:induction false} ReplayRecovers(c: Cache, done: seq<HostPlacement>, ps: seq<HostPlacement>, lost: set<Key>)
    requires WellFormed(done + ps) && Supplied(c, done, ps) && forall q :: q in done ==> Settled(c, q)
    requires c.replay && c.replayed <= DesiredKeys(done) && DesiredKeys(done) !! lost
    ensures DesiredKeys(done + ps) !! LostAfterAll(c, ps, lost)
    decreases |ps|
  {
    hide WellFormed, Settled, Supplied, Update, Compatible;
    if ps == [] {
      assert done + ps == done;
    } else {
      var p := ps[0];
      WellFormedHead(done, ps);
      SuppliedHead(c, done, ps);
      HeadSettles(c, done, ps);
      UpdateAddsOwnKey(c, p);
      assert DesiredKeys(done + [p]) == DesiredKeys(done) + (if p.shown.Some? then {p.Key()} else {});
      if p.shown.Some? {
        OwnKeyIsNew(done, p);
        UpdateRedisplays(c, p, lost);
      }
      ReplayRecovers(Update(c, p).0, done + [p], ps[1..], LostAfter(c, p, lost));
    }
  }

  /** A requested replay repairs every loss: after a well-formed frame the terminal agrees exactly. */
  lemma ReplayRestoresAgreement(c: Cache, t: Terminal, lost: set<Key>, ps: seq<HostPlacement>, stale: seq<Key>)
    requires Consistent(c) && Mirrors(t, c, lost) && c.replayed == {}
    requires WellFormed(ps) && Supplied(c, [], ps) && Enumerates(stale, StaleKeys(RequestReplay(c), ps))
    ensures var (c', cs) := Frame(RequestReplay(c), ps, stale);
            Mirrors(ExecuteAll(t, cs), c', {})
  {
    hide Frame, Update, UpdateAll, DropStale, Settled, LostAfterAll, WellFormed;
    var requested := RequestReplay(c);
    var retained := RetainSources(requested, DesiredSources(ps));
    var kept := DropStale(retained, stale).0;
    DropStaleKeepsImages(retained, stale);
    assert Supplied(requested, [], ps);
    KeptIsSupplied(requested, kept, ps);
    hide Supplied;
    FrameMirrors(requested, t, lost, ps, stale);
    FrameCachesExactly(requested, ps, stale);
    assert [] + ps == ps && DesiredKeys([]) == {};
    ReplayRecovers(kept, [], ps, lost);
    assert LostAfterFrame(requested, ps, stale, lost) == LostAfterAll(kept, ps, lost);
  }

  /** After a replayed frame the terminal shows exactly its visible placements, whatever was lost before. */
  lemma ReplayedFrameIsOnScreen(
    c: Cache, t: Terminal, lost: set<Key>, ps: seq<HostPlacement>, stale: seq<Key>, p: HostPlacement)
    requires Consistent(c) && Mirrors(t, c, lost) && c.replayed == {}
    requires WellFormed(ps) && Supplied(c, [], ps) && Enumerates(stale, StaleKeys(RequestReplay(c), ps))
    requires p in ps && p.shown.Some?
    ensures var t' := ExecuteAll(t, Frame(RequestReplay(c), ps, stale).1);
            && t'.placements.Keys == DesiredKeys(ps)
            && t'.placements[p.Key()] == Drawn(p.shown.value.clipped, p.shown.value.z)
            && p.hostId in t'.images && t'.images[p.hostId] == p.image
  {
    hide Frame, WellFormed;
    assert Supplied(RequestReplay(c), [], ps);
    hide Supplied;
    ReplayRestoresAgreement(c, t, lost, ps, stale);
    FrameCachesExactly(RequestReplay(c), ps, stale);
    var (c', cs) := Frame(RequestReplay(c), ps, stale);
    assert Settled(c', p);
    assert ExecuteAll(t, cs).placements.Keys == c'.placements.Keys;
  }

  // --- A caller that replays before every frame ---

  /** Visible placements have distinct keys; their host ids may stand for anything. */
  ghost predicate DistinctVisible(ps: seq<HostPlacement>) {
    forall i, j :: 0 <= i < j < |ps| && ps[i].shown.Some? && ps[j].shown.Some? ==> ps[i].Key() != ps[j].Key()
  }

  lemma {:induction false} ReplayedUpdatesKeepImages(c: Cache, done: set<Key>, ps: seq<HostPlacement>)
    requires c.replay && c.replayed <= done && DistinctVisible(ps)
    requires forall i :: 0 <= i < |ps| && ps[i].shown.Some? ==> ps[i].Key() !in done
    ensures KeepsImages(c, ps)
    decreases |ps|
  {
    hide Update;
    if ps != [] {
      var p := ps[0];
      UpdateAddsOwnKey(c, p);
      assert !LosesPlacement(c, p);
      ReplayedUpdatesKeepImages(Update(c, p).0, if p.shown.Some? then done + {p.Key()} else done, ps[1..]);
    }
  }

  /** Frames have distinct visible keys and each follows a replay request, or one is pending at the start. */
  ghost predicate ReplayedRun(pending: bool, events: seq<Event>) {
    forall i :: 0 <= i < |events| && events[i].DrawFrame? ==>
      DistinctVisible(events[i].placements) && FollowsReplay(pending, events, i)
  }

  predicate FollowsReplay(pending: bool, events: seq<Event>, i: nat)
    requires i < |events|
  {
    if i == 0 then pending else events[i - 1].Replay?
  }

  lemma {:induction false} ReplayedRunKeepsImages(c: Cache, events: seq<Event>)
    requires c.replayed == {} && ReplayedRun(c.replay, events)
    ensures RunKeepsImages(c, events)
    decreases |events|
  {
    hide Frame, KeepsImages, DistinctVisible;
    if events != [] {
      var e := events[0];
      if e.DrawFrame? {
        var retained := RetainSources(c, DesiredSources(e.placements));
        DropStaleKeepsImages(retained, e.stale);
        ReplayedUpdatesKeepImages(DropStale(retained, e.stale).0, {}, e.placements);
      } else if e.RetireImages? {
        RetireKeepsImages(c, e.ids);
      }
      FrameEndsReplay(c, e);
      assert forall i :: 0 <= i < |events| - 1 ==>
          events[1..][i] == events[i + 1]
          && (events[i + 1].DrawFrame? ==> FollowsReplay(c.replay, events, i + 1));
      ReplayedRunKeepsImages(Apply(c, e).0, events[1..]);
    }
  }

  lemma FrameEndsReplay(c: Cache, e: Event)
    ensures e.DrawFrame? ==> !Apply(c, e).0.replay && Apply(c, e).0.replayed == {}
  {
  }

  /** Then terminal and cache agree after every run, whatever images the host ids stand for. */
  lemma ReplayedRunAgrees(events: seq<Event>)
    requires PossibleRun(EmptyCache, events) && ReplayedRun(false, events)
    ensures var (c, t, lost) := Run(EmptyCache, Terminal(map[], map[]), {}, events);
            lost == {} && Consistent(c) && Mirrors(t, c, {})
  {
    ReplayedRunKeepsImages(EmptyCache, events);
    RunAgrees(EmptyCache, Terminal(map[], map[]), events);
  }
}
