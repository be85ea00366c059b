/** `HostGraphicsCache` as an object updated in place, proved against the specification in `GraphicsCache`. */
module GraphicsCacheObject {
  import opened Options
  import opened GraphicsCache

  lemma {:induction false} UpdateAllConcat(c: Cache, a: seq<HostPlacement>, b: seq<HostPlacement>)
    ensures var (c1, first) := UpdateAll(c, a);
            var (c2, second) := UpdateAll(c1, b);
            UpdateAll(c, a + b) == (c2, first + second)
    decreases |a|
  {
    hide Update;
    if a == [] {
      assert a + b == b;
      assert [] + UpdateAll(c, b).1 == UpdateAll(c, b).1;
    } else {
      assert (a + b)[1..] == a[1..] + b;
      var (next, head) := Update(c, a[0]);
      UpdateAllConcat(next, a[1..], b);
      var (c1, first) := UpdateAll(next, a[1..]);
      var (c2, second) := UpdateAll(c1, b);
      assert head + (first + second) == head + first + second;
    }
  }

  lemma {:induction false} DropStaleConcat(c: Cache, a: seq<Key>, b: seq<Key>)
    ensures var (c1, first) := DropStale(c, a);
            var (c2, second) := DropStale(c1, b);
            DropStale(c, a + b) == (c2, first + second)
    decreases |a|
  {
    if a == [] {
      assert a + b == b;
      assert [] + DropStale(c, b).1 == DropStale(c, b).1;
    } else {
      assert (a + b)[1..] == a[1..] + b;
      var next := c.(placements := c.placements - {a[0]}, replayed := c.replayed - {a[0]});
      DropStaleConcat(next, a[1..], b);
      var (c1, first) := DropStale(next, a[1..]);
      var (c2, second) := DropStale(c1, b);
      var head := [DeletePlacement(a[0])];
      assert head + (first + second) == head + first + second;
    }
  }

  lemma UpdateOne(c: Cache, p: HostPlacement)
    ensures UpdateAll(c, [p]) == Update(c, p)
  {
    var (next, first) := Update(c, p);
    assert [p][1..] == [] && UpdateAll(next, []) == (next, []) && first + [] == first;
  }

  lemma UpdateNone(c: Cache)
    ensures UpdateAll(c, []) == (c, [])
  {
  }

  lemma SkippedEmitsNothing(c: Cache, p: HostPlacement)
    ensures Skipped(c, p) ==> Update(c, p) == (c, [])
  {
  }

  lemma DropOne(c: Cache, key: Key)
    ensures DropStale(c, [key])
         == (c.(placements := c.placements - {key}, replayed := c.replayed - {key}), [DeletePlacement(key)])
  {
    assert [key][1..] == [];
    assert [DeletePlacement(key)] + [] == [DeletePlacement(key)];
  }

  class HostGraphicsCache {
    var images: map<nat, ImageSignature>
    var placements: map<Key, PlacementSignature>
    var sources: map<SourceKey, nat>
    var replayPlacements: bool
    var replayedPlacements: set<Key>

    function View(): Cache
      reads this
    {
      Cache(images, placements, sources, replayPlacements, replayedPlacements)
    }

    constructor ()
      ensures View() == EmptyCache
    {
      images, placements, sources := map[], map[], map[];
      replayPlacements, replayedPlacements := false, {};
    }

    /** `retain` on both placement collections. */
    method ForgetImagePlacements(id: nat)
      modifies this
      ensures View() == ForgetPlacements(old(View()), id)
    {
      placements := DropImage(placements, id);
      replayedPlacements := set k | k in replayedPlacements && k.0 != id;
    }

    method ReleaseSuperseded(commands: seq<Command>, source: SourceKey, hostId: nat) returns (result: seq<Command>)
      modifies this
      ensures View() == ReleaseStep(old(View()), source, hostId).0
      ensures result == commands + ReleaseStep(old(View()), source, hostId).1
    {
      result := commands;
      var hadPrevious := source in sources;
      var previous := if hadPrevious then sources[source] else 0;
      sources := sources[source := hostId];
      if !hadPrevious || previous == hostId || previous in sources.Values {
        return;
      }
      result := result + [DeleteImage(previous)];
      images := images - {previous};
      ForgetImagePlacements(previous);
    }

    /** None means that nothing was emitted and nothing changed. */
    method EncodePlacementUpdate(p: HostPlacement) returns (output: Option<seq<Command>>)
      modifies this
      ensures View() == Update(old(View()), p).0
      ensures output == if Skipped(old(View()), p) then None else Some(Update(old(View()), p).1)
    {
      if p.shown.None? {
        return None;
      }
      var key := p.Key();
      var imageCurrent := p.hostId in images && images[p.hostId] == p.image;
      var placementCurrent := key in placements && placements[key] == p.shown.value
                              && (!replayPlacements || key in replayedPlacements);
      if imageCurrent && placementCurrent && p.source in sources && sources[p.source] == p.hostId {
        return None;
      }
      var commands: seq<Command> := [];
      if !imageCurrent {
        if !p.hasData {
          return None;
        }
        if p.hostId in images {
          commands := commands + [DeleteImage(p.hostId)];
          ForgetImagePlacements(p.hostId);
        }
        commands := commands + [Upload(p.hostId, p.image)];
        images := images[p.hostId := p.image];
      }
      assert View() == UploadStep(old(View()), p).0 && commands == UploadStep(old(View()), p).1;
      commands := ReleaseSuperseded(commands, p.source, p.hostId);
      ghost var sofar := commands;
      assert sofar + [] == sofar;
      if !placementCurrent {
        commands := commands + [Display(key, p.shown.value.clipped, p.shown.value.z)];
      }
      placements := placements[key := p.shown.value];
      if replayPlacements {
        replayedPlacements := replayedPlacements + {key};
      }
      output := Some(commands);
    }

    method DeleteStalePlacements(wanted: set<Key>) returns (output: seq<Command>, ghost order: seq<Key>)
      modifies this
      ensures Enumerates(order, old(placements).Keys - wanted)
      ensures (View(), output) == DropStale(old(View()), order)
    {
      var stale := placements.Keys - wanted;
      output, order := [], [];
      while stale != {}
        invariant forall k :: k in order || k in stale <==> k in old(placements).Keys - wanted
        invariant (View(), output) == DropStale(old(View()), order)
        decreases |stale|
      {
        var key :| key in stale;
        DropStaleConcat(old(View()), order, [key]);
        DropOne(View(), key);
        stale := stale - {key};
        order := order + [key];
        output := output + [DeletePlacement(key)];
        placements := placements - {key};
        replayedPlacements := replayedPlacements - {key};
      }
    }

    /** One frame: drop the sources and placements it no longer wants, then update in order. */
    method EncodeGraphicsOutput(ps: seq<HostPlacement>) returns (output: seq<Command>, ghost order: seq<Key>)
      modifies this
      ensures Enumerates(order, StaleKeys(old(View()), ps))
      ensures (View(), output) == Frame(old(View()), ps, order)
    {
      hide Update, UpdateAll, DropStale;
      var wantedSources := DesiredSources(ps);
      sources := map s | s in sources && s in wantedSources :: sources[s];
      output, order := DeleteStalePlacements(DesiredKeys(ps));
      ghost var kept, drops := View(), output;
      assert (kept, drops) == DropStale(RetainSources(old(View()), wantedSources), order);
      ghost var updates: seq<Command> := [];
      UpdateNone(kept);
      for i := 0 to |ps|
        invariant (View(), updates) == UpdateAll(kept, ps[..i])
        invariant output == drops + updates
      {
        assert ps[..i + 1] == ps[..i] + [ps[i]];
        UpdateAllConcat(kept, ps[..i], [ps[i]]);
        UpdateOne(View(), ps[i]);
        SkippedEmitsNothing(View(), ps[i]);
        ghost var emitted := Update(View(), ps[i]).1;
        var transaction := EncodePlacementUpdate(ps[i]);
        if transaction.Some? {
          output := output + transaction.value;
        }
        assert drops + updates + emitted == drops + (updates + emitted);
        updates := updates + emitted;
      }
      assert ps[..|ps|] == ps;
      replayPlacements := false;
      replayedPlacements := {};
    }

    method RequestPlacementReplay()
      modifies this
      ensures View() == RequestReplay(old(View()))
    {
      if !replayPlacements {
        replayPlacements := true;
        replayedPlacements := {};
      }
    }

    /** What a client surface does with its stale images before a frame. */
    method RetireImages(ids: seq<nat>) returns (output: seq<Command>)
      modifies this
      ensures (View(), output) == Retire(old(View()), ids)
    {
      output := [];
      assert ids[0..] == ids && [] + Retire(old(View()), ids).1 == Retire(old(View()), ids).1;
      for i := 0 to |ids|
        invariant Retire(View(), ids[i..]).0 == Retire(old(View()), ids).0
        invariant output + Retire(View(), ids[i..]).1 == Retire(old(View()), ids).1
      {
        assert ids[i..][1..] == ids[i + 1..];
        ghost var rest := Retire(ForgetImage(View(), ids[i]), ids[i + 1..]).1;
        assert output + ([DeleteImage(ids[i])] + rest) == output + [DeleteImage(ids[i])] + rest;
        assert output + ([] + rest) == output + rest;
        if ids[i] in images {
          output := output + [DeleteImage(ids[i])];
        }
        images := images - {ids[i]};
        ForgetImagePlacements(ids[i]);
        sources := map s | s in sources && sources[s] != ids[i] :: sources[s];
      }
      assert ids[|ids|..] == [] && output + [] == output;
    }

    /** The images are deleted in any order, and the cache is emptied. */
    method ClearBytes() returns (output: seq<Command>, ghost order: seq<nat>)
      modifies this
      ensures Enumerates(order, old(images).Keys)
      ensures output == DeleteImages(order) && View() == EmptyCache
    {
      var ids := images.Keys;
      output, order := [], [];
      while ids != {}
        invariant forall id :: id in order || id in ids <==> id in old(images).Keys
        invariant output == DeleteImages(order)
        invariant unchanged(this)
        decreases |ids|
      {
        var id :| id in ids;
        ids := ids - {id};
        order := order + [id];
        output := output + [DeleteImage(id)];
      }
      images, placements, sources := map[], map[], map[];
      replayPlacements, replayedPlacements := false, {};
    }
  }
}
