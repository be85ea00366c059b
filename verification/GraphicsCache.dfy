/**
 The host graphics cache (src/kitty_graphics.rs) and the terminal it mirrors. The specification
 works on `Cache` values; `Terminal` executes the emitted commands as the Kitty terminal graphics
 protocol describes them in its section "Deleting images".
 */
module GraphicsCache {
  import opened Options

  type Key = (nat, nat)

  datatype SourceKey = TerminalImage(paneId: nat, imageId: nat) | ClientSurface(scope: string, source: nat)

  datatype ImageSignature = ImageSignature(width: nat, height: nat, formatCode: nat, dataLength: nat, fingerprint: nat)

  datatype ClippedPlacement = ClippedPlacement(
    x: nat, y: nat, cols: nat, rows: nat,
    sourceX: nat, sourceY: nat, sourceWidth: nat, sourceHeight: nat,
    xOffset: nat, yOffset: nat)

  datatype PlacementSignature = PlacementSignature(clipped: ClippedPlacement, z: int, scrollback: nat)

  /** One placement of a frame; `shown` is none when clipping leaves nothing to draw. */
  datatype HostPlacement = HostPlacement(
    source: SourceKey, hostId: nat, placementId: nat,
    image: ImageSignature, shown: Option<PlacementSignature>, hasData: bool)
  {
    function Key(): Key { (hostId, placementId) }
  }

  datatype Cache = Cache(
    images: map<nat, ImageSignature>,
    placements: map<Key, PlacementSignature>,
    sources: map<SourceKey, nat>,
    replay: bool,
    replayed: set<Key>)

  const EmptyCache := Cache(map[], map[], map[], false, {})

  // --- The terminal ---

  datatype Command =
    | DeleteImage(id: nat)
    | DeletePlacement(key: Key)
    | Upload(id: nat, image: ImageSignature)
    | Display(key: Key, clipped: ClippedPlacement, z: int)

  datatype Drawn = Drawn(clipped: ClippedPlacement, z: int)

  datatype Terminal = Terminal(images: map<nat, ImageSignature>, placements: map<Key, Drawn>)

  function DropImage<V>(m: map<Key, V>, id: nat): (r: map<Key, V>)
    ensures forall k :: k in r <==> k in m && k.0 != id
    ensures forall k :: k in r ==> r[k] == m[k]
  {
    map k | k in m && k.0 != id :: m[k]
  }

  /** An upload is not trusted to remove the placements its id had before; only a deletion does. */
  function Execute(t: Terminal, c: Command): Terminal {
    match c
    case DeleteImage(id) => Terminal(t.images - {id}, DropImage(t.placements, id))
    case DeletePlacement(key) => t.(placements := t.placements - {key})
    case Upload(id, image) => t.(images := t.images[id := image])
    case Display(key, clipped, z) =>
      if key.0 in t.images then t.(placements := t.placements[key := Drawn(clipped, z)]) else t
  }

  function ExecuteAll(t: Terminal, cs: seq<Command>): Terminal
    decreases |cs|
  {
    if cs == [] then t else ExecuteAll(Execute(t, cs[0]), cs[1..])
  }

  lemma {:induction false} ExecuteConcat(t: Terminal, a: seq<Command>, b: seq<Command>)
    ensures ExecuteAll(t, a + b) == ExecuteAll(ExecuteAll(t, a), b)
    decreases |a|
  {
    if a == [] {
      assert a + b == b;
    } else {
      assert (a + b)[1..] == a[1..] + b;
      ExecuteConcat(Execute(t, a[0]), a[1..], b);
    }
  }

  // --- The cache ---

  predicate ImageCurrent(c: Cache, p: HostPlacement) {
    p.hostId in c.images && c.images[p.hostId] == p.image
  }

  predicate PlacementCurrent(c: Cache, p: HostPlacement) {
    && p.Key() in c.placements && Some(c.placements[p.Key()]) == p.shown
    && (!c.replay || p.Key() in c.replayed)
  }

  predicate SourceCurrent(c: Cache, p: HostPlacement) {
    p.source in c.sources && c.sources[p.source] == p.hostId
  }

  /** The update returns before touching the cache. */
  predicate Skipped(c: Cache, p: HostPlacement) {
    || p.shown.None?
    || (ImageCurrent(c, p) && PlacementCurrent(c, p) && SourceCurrent(c, p))
    || (!ImageCurrent(c, p) && !p.hasData)
  }

  function ForgetPlacements(c: Cache, id: nat): Cache {
    c.(placements := DropImage(c.placements, id), replayed := set k | k in c.replayed && k.0 != id)
  }

  /** Upload an image under its host id, deleting whatever the id held before. */
  function UploadStep(c: Cache, p: HostPlacement): (Cache, seq<Command>) {
    if ImageCurrent(c, p) then (c, [])
    else if p.hostId in c.images then
      var cleared := ForgetPlacements(c, p.hostId);
      (cleared.(images := cleared.images[p.hostId := p.image]), [DeleteImage(p.hostId), Upload(p.hostId, p.image)])
    else (c.(images := c.images[p.hostId := p.image]), [Upload(p.hostId, p.image)])
  }

  /** `release_superseded_source_image`. */
  function ReleaseStep(c: Cache, source: SourceKey, id: nat): (Cache, seq<Command>) {
    var bound := c.(sources := c.sources[source := id]);
    if source !in c.sources then (bound, [])
    else
      var previous := c.sources[source];
      if previous == id || previous in bound.sources.Values then (bound, [])
      else
        var cleared := ForgetPlacements(bound, previous);
        (cleared.(images := cleared.images - {previous}), [DeleteImage(previous)])
  }

  /** `encode_placement_update`: the new cache and the commands it emits. */
  function Update(c: Cache, p: HostPlacement): (Cache, seq<Command>) {
    if Skipped(c, p) then (c, [])
    else
      var (uploaded, upload) := UploadStep(c, p);
      var (released, release) := ReleaseStep(uploaded, p.source, p.hostId);
      var display := if PlacementCurrent(c, p) then [] else [Display(p.Key(), p.shown.value.clipped, p.shown.value.z)];
      (released.(placements := released.placements[p.Key() := p.shown.value],
                 replayed := if c.replay then released.replayed + {p.Key()} else released.replayed),
       upload + release + display)
  }

  function UpdateAll(c: Cache, ps: seq<HostPlacement>): (Cache, seq<Command>)
    decreases |ps|
  {
    if ps == [] then (c, [])
    else
      var (next, first) := Update(c, ps[0]);
      var (final, rest) := UpdateAll(next, ps[1..]);
      (final, first + rest)
  }

  function DesiredSources(ps: seq<HostPlacement>): set<SourceKey> {
    set p | p in ps :: p.source
  }

  function DesiredKeys(ps: seq<HostPlacement>): set<Key> {
    set p | p in ps && p.shown.Some? :: p.Key()
  }

  function RetainSources(c: Cache, wanted: set<SourceKey>): Cache {
    c.(sources := map s | s in c.sources && s in wanted :: c.sources[s])
  }

  /** The stale placements are deleted one by one, in any order. */
  function DropStale(c: Cache, stale: seq<Key>): (Cache, seq<Command>)
    decreases |stale|
  {
    if stale == [] then (c, [])
    else
      var next := c.(placements := c.placements - {stale[0]}, replayed := c.replayed - {stale[0]});
      var (final, rest) := DropStale(next, stale[1..]);
      (final, [DeletePlacement(stale[0])] + rest)
  }

  ghost predicate Enumerates<T(!new)>(order: seq<T>, elements: set<T>) {
    forall x :: x in order <==> x in elements
  }

  function StaleKeys(c: Cache, ps: seq<HostPlacement>): set<Key> {
    c.placements.Keys - DesiredKeys(ps)
  }

  /** `encode_graphics_output`, for any order of the stale keys. */
  function Frame(c: Cache, ps: seq<HostPlacement>, stale: seq<Key>): (Cache, seq<Command>) {
    var (kept, drops) := DropStale(RetainSources(c, DesiredSources(ps)), stale);
    var (updated, updates) := UpdateAll(kept, ps);
    (updated.(replay := false, replayed := {}), drops + updates)
  }

  function RequestReplay(c: Cache): Cache {
    if c.replay then c else c.(replay := true, replayed := {})
  }

  function ForgetImage(c: Cache, id: nat): Cache {
    ForgetPlacements(c, id).(images := c.images - {id},
                             sources := map s | s in c.sources && c.sources[s] != id :: c.sources[s])
  }

  /** Images that a client surface no longer needs are deleted before its next frame. */
  function Retire(c: Cache, ids: seq<nat>): (Cache, seq<Command>)
    decreases |ids|
  {
    if ids == [] then (c, [])
    else
      var (final, rest) := Retire(ForgetImage(c, ids[0]), ids[1..]);
      (final, (if ids[0] in c.images then [DeleteImage(ids[0])] else []) + rest)
  }

  function DeleteImages(ids: seq<nat>): (r: seq<Command>)
    ensures |r| == |ids| && forall i :: 0 <= i < |ids| ==> r[i] == DeleteImage(ids[i])
  {
    seq(|ids|, i requires 0 <= i < |ids| => DeleteImage(ids[i]))
  }
}
