/**
 Crash-resumable publication of a release (scripts/gx_release.py). The server is a value that each
 request changes; a run stops after any number of requests, and a stopped upload may leave an asset
 that is not in state "uploaded". Runs follow one another; nobody else writes.
 */
module ReleasePublication {
  import opened Options

  /** A release file as `verify_artifacts` returns it; the digest stands for the content. */
  datatype File = File(name: string, size: nat, digest: string)

  /** What one build brings: its files, and the body bound to its manifest. */
  datatype Build = Build(files: seq<File>, body: string)

  datatype Asset = Asset(name: string, uploaded: bool, size: nat, digest: string)

  datatype Release = Release(tag: string, target: string, draft: bool, body: string, assets: seq<Asset>)

  /** A release is addressed by its position; releases are never deleted. */
  datatype Server = Server(tags: map<string, string>, releases: seq<Release>)

  datatype Outcome = Stopped | Refused | Published

  function TagCommit(s: Server, tag: string): Option<string> {
    if tag in s.tags then Some(s.tags[tag]) else None
  }

  /** The releases of a tag among the first `n`. */
  function Matches(releases: seq<Release>, tag: string, n: nat): (r: seq<nat>)
    requires n <= |releases|
    ensures forall i :: i in r <==> 0 <= i < n && releases[i].tag == tag
  {
    if n == 0 then []
    else Matches(releases, tag, n - 1) + (if releases[n - 1].tag == tag then [n - 1] else [])
  }

  lemma NothingYet(releases: seq<Release>, tag: string)
    ensures Matches(releases, tag, 0) == []
  {
  }

  const PAGE: nat := 100
  const PAGES: nat := 100

  /** The paged listing of `release_state`: none when a hundred full pages do not end it. */
  method FindReleases(releases: seq<Release>, tag: string) returns (found: Option<seq<nat>>)
    ensures found.None? <==> |releases| >= 10_000
    ensures found.Some? ==> found.value == Matches(releases, tag, |releases|)
  {
    hide Matches;
    var matches: seq<nat> := [];
    NothingYet(releases, tag);
    var page := 0;
    while page < PAGES
      invariant 0 <= page <= PAGES && page * PAGE <= |releases|
      invariant matches == Matches(releases, tag, page * PAGE)
    {
      var start := page * PAGE;
      var end := if start + PAGE <= |releases| then start + PAGE else |releases|;
      matches := ScanPage(releases, tag, start, end, matches);
      if end - start < PAGE {
        return Some(matches);
      }
      page := page + 1;
    }
    return None;
  }

  method ScanPage(releases: seq<Release>, tag: string, start: nat, end: nat, found: seq<nat>)
    returns (matches: seq<nat>)
    requires start <= end <= |releases|
    requires found == Matches(releases, tag, start)
    ensures matches == Matches(releases, tag, end)
  {
    matches := found;
    for i := start to end
      invariant matches == Matches(releases, tag, i)
    {
      if releases[i].tag == tag {
        matches := matches + [i];
      }
    }
  }

  // --- Asset verification ---

  ghost predicate DistinctNames(files: seq<File>) {
    forall i, j :: 0 <= i < j < |files| ==> files[i].name != files[j].name
  }

  predicate Genuine(a: Asset, f: File) {
    a.name == f.name && a.uploaded && a.size == f.size && a.digest == f.digest
  }

  predicate IsCopy(a: Asset, files: seq<File>) {
    exists k :: 0 <= k < |files| && Genuine(a, files[k])
  }

  /** `verify_remote_assets`: distinct expected names, every asset a genuine copy of its file. */
  predicate Verified(assets: seq<Asset>, files: seq<File>, complete: bool) {
    && (forall i, j :: 0 <= i < j < |assets| ==> assets[i].name != assets[j].name)
    && (forall i :: 0 <= i < |assets| ==> IsCopy(assets[i], files))
    && (complete ==> forall k :: 0 <= k < |files| ==> HasAsset(assets, files[k].name))
  }

  predicate HasAsset(assets: seq<Asset>, name: string) {
    exists i :: 0 <= i < |assets| && assets[i].name == name
  }

  /** The finished asset with the name, size and digest of the file. */
  function CopyOf(f: File): Asset {
    Asset(f.name, true, f.size, f.digest)
  }

  predicate CopiesSome(a: Asset, files: seq<File>) {
    exists k :: 0 <= k < |files| && a == CopyOf(files[k])
  }

  /** As many assets as files, no two of one name, each a finished copy of a file, and a copy of every file. */
  ghost predicate HoldsExactly(assets: seq<Asset>, files: seq<File>) {
    && |assets| == |files|
    && (forall i, j :: 0 <= i < j < |assets| ==> assets[i].name != assets[j].name)
    && (forall i :: 0 <= i < |assets| ==> CopiesSome(assets[i], files))
    && (forall k :: 0 <= k < |files| ==> CopyOf(files[k]) in assets)
  }

  /** Verification accepts a complete asset list exactly when it is the file list. */
  lemma VerifiedIsExact(assets: seq<Asset>, files: seq<File>)
    requires DistinctNames(files)
    ensures Verified(assets, files, true) <==> HoldsExactly(assets, files)
  {
    if Verified(assets, files, true) {
      VerifiedHolds(assets, files);
    }
    if HoldsExactly(assets, files) {
      HeldVerifies(assets, files);
    }
  }

  lemma HeldVerifies(assets: seq<Asset>, files: seq<File>)
    requires HoldsExactly(assets, files)
    ensures Verified(assets, files, true)
  {
    forall i | 0 <= i < |assets|
      ensures IsCopy(assets[i], files)
    {
      assert CopiesSome(assets[i], files);
      var k :| 0 <= k < |files| && assets[i] == CopyOf(files[k]);
      assert Genuine(assets[i], files[k]);
    }
    forall k | 0 <= k < |files|
      ensures HasAsset(assets, files[k].name)
    {
      assert CopyOf(files[k]) in assets;
    }
  }

  lemma VerifiedHolds(assets: seq<Asset>, files: seq<File>)
    requires DistinctNames(files) && Verified(assets, files, true)
    ensures HoldsExactly(assets, files)
  {
    SameCount(assets, files);
    forall i | 0 <= i < |assets|
      ensures CopiesSome(assets[i], files)
    {
      assert IsCopy(assets[i], files);
      var k :| 0 <= k < |files| && Genuine(assets[i], files[k]);
      assert assets[i] == CopyOf(files[k]);
    }
    forall k | 0 <= k < |files|
      ensures CopyOf(files[k]) in assets
    {
      assert HasAsset(assets, files[k].name);
      var i :| 0 <= i < |assets| && assets[i].name == files[k].name;
      assert IsCopy(assets[i], files);
      var j :| 0 <= j < |files| && Genuine(assets[i], files[j]);
      assert j == k;
    }
  }

  function AssetNames(assets: seq<Asset>): (names: seq<string>)
    ensures |names| == |assets| && forall i :: 0 <= i < |assets| ==> names[i] == assets[i].name
  {
    seq(|assets|, i requires 0 <= i < |assets| => assets[i].name)
  }

  function FileNames(files: seq<File>): (names: seq<string>)
    ensures |names| == |files| && forall i :: 0 <= i < |files| ==> names[i] == files[i].name
  {
    seq(|files|, i requires 0 <= i < |files| => files[i].name)
  }

  lemma SameCount(assets: seq<Asset>, files: seq<File>)
    requires DistinctNames(files) && Verified(assets, files, true)
    ensures |assets| == |files|
  {
    var (a, f) := (AssetNames(assets), FileNames(files));
    var names := set name | name in a;
    forall name
      ensures name in names <==> name in f
    {
      if name in names {
        var i :| 0 <= i < |a| && a[i] == name;
        assert IsCopy(assets[i], files);
        var k :| 0 <= k < |files| && Genuine(assets[i], files[k]);
        assert f[k] == name;
      }
      if name in f {
        var k :| 0 <= k < |f| && f[k] == name;
        assert HasAsset(assets, files[k].name);
        var i :| 0 <= i < |assets| && assets[i].name == name;
        assert a[i] == name;
      }
    }
    CountNames(a, names);
    CountNames(f, names);
  }

  lemma {:induction false} CountNames(names: seq<string>, elements: set<string>)
    requires forall i, j :: 0 <= i < j < |names| ==> names[i] != names[j]
    requires forall x :: x in elements <==> x in names
    ensures |elements| == |names|
    decreases |names|
  {
    if names == [] {
      assert elements == {};
    } else {
      CountNames(names[1..], elements - {names[0]});
    }
  }

  // --- Requests ---

  function PutTag(s: Server, tag: string, sha: string): Server {
    s.(tags := s.tags[tag := sha])
  }

  function PostRelease(s: Server, tag: string, sha: string, body: string): Server {
    s.(releases := s.releases + [Release(tag, sha, true, body, [])])
  }

  function WithRelease(s: Server, id: nat, r: Release): Server
    requires id < |s.releases|
  {
    s.(releases := s.releases[id := r])
  }

  function PostAsset(s: Server, id: nat, f: File, finished: bool): Server
    requires id < |s.releases|
  {
    var r := s.releases[id];
    WithRelease(s, id, r.(assets := r.assets + [Asset(f.name, finished, f.size, f.digest)]))
  }

  predicate UnchangedDraft(r: Release, tag: string, sha: string, body: string) {
    r.draft && r.body == body && r.tag == tag && r.target == sha
  }

  // --- What every run keeps ---

  /** The release is bound to the tagged commit; once published it is exactly one of the builds. */
  ghost predicate Bound(s: Server, r: Release, tag: string, sha: string, builds: set<Build>) {
    && TagCommit(s, tag) == Some(sha) && r.target == sha
    && (!r.draft ==> exists b :: b in builds && r.body == b.body && Verified(r.assets, b.files, true))
  }

  /** At most one release carries the tag, and it is bound. */
  ghost predicate Sound(s: Server, tag: string, sha: string, builds: set<Build>) {
    && |Matches(s.releases, tag, |s.releases|)| <= 1
    && forall i :: 0 <= i < |s.releases| && s.releases[i].tag == tag ==> Bound(s, s.releases[i], tag, sha, builds)
  }

  /** Tags stay, other releases stay, and a published release of the tag stays as it is. */
  ghost predicate Evolves(s: Server, s': Server, tag: string) {
    && (forall t :: t in s.tags ==> t in s'.tags && s'.tags[t] == s.tags[t])
    && (forall t :: t in s'.tags && t !in s.tags ==> t == tag)
    && |s.releases| <= |s'.releases|
    && (forall i :: 0 <= i < |s.releases| && (s.releases[i].tag != tag || !s.releases[i].draft) ==>
          s'.releases[i] == s.releases[i])
    && (forall i :: 0 <= i < |s.releases| ==> s'.releases[i].tag == s.releases[i].tag)
    && (forall i :: |s.releases| <= i < |s'.releases| ==> s'.releases[i].tag == tag)
  }

  lemma EvolvesTransitive(a: Server, b: Server, c: Server, tag: string)
    requires Evolves(a, b, tag) && Evolves(b, c, tag)
    ensures Evolves(a, c, tag)
  {
  }

  /** The tag is free or already on the commit, and a draft of this very build may be waiting. */
  ghost predicate Resumable(s: Server, tag: string, sha: string, build: Build) {
    && |s.releases| < PAGE * PAGES
    && |Matches(s.releases, tag, |s.releases|)| <= 1
    && (TagCommit(s, tag).None? || TagCommit(s, tag) == Some(sha))
    && forall i :: 0 <= i < |s.releases| && s.releases[i].tag == tag ==>
         && TagCommit(s, tag) == Some(sha)
         && UnchangedDraft(s.releases[i], tag, sha, build.body)
         && Verified(s.releases[i].assets, build.files, false)
  }

  /** Every request of an uninterrupted run. */
  function RunLength(build: Build): nat {
    10 + 2 * |build.files|
  }

  // --- Uploading ---

  /** A stopped upload left an asset behind that is not completely uploaded. */
  predicate Unfinished(assets: seq<Asset>) {
    exists k :: 0 <= k < |assets| && !assets[k].uploaded
  }

  /** Only the assets of one release differ. */
  ghost predicate OnlyAssets(s: Server, s': Server, id: nat) {
    && id < |s.releases| == |s'.releases| && s.tags == s'.tags
    && (forall i :: 0 <= i < |s.releases| && i != id ==> s'.releases[i] == s.releases[i])
    && s'.releases[id] == s.releases[id].(assets := s'.releases[id].assets)
  }

  lemma AddGenuine(assets: seq<Asset>, files: seq<File>, k: nat)
    requires Verified(assets, files, false) && k < |files| && !HasAsset(assets, files[k].name)
    ensures var grown := assets + [Asset(files[k].name, true, files[k].size, files[k].digest)];
            && Verified(grown, files, false)
            && forall name :: HasAsset(grown, name) <==> HasAsset(assets, name) || name == files[k].name
  {
    var added := Asset(files[k].name, true, files[k].size, files[k].digest);
    var grown := assets + [added];
    forall i | 0 <= i < |grown|
      ensures IsCopy(grown[i], files)
    {
      if i < |assets| {
        assert grown[i] == assets[i];
      } else {
        assert Genuine(grown[i], files[k]);
      }
    }
    forall name
      ensures HasAsset(grown, name) <==> HasAsset(assets, name) || name == files[k].name
    {
      if HasAsset(assets, name) {
        var i :| 0 <= i < |assets| && assets[i].name == name;
        assert grown[i].name == name;
      }
      assert grown[|assets|].name == files[k].name;
    }
  }

  /** The upload loop: every file whose name was not listed, in order, each behind a draft check. */
  method UploadMissing(s: Server, id: nat, files: seq<File>, tag: string, sha: string, body: string, budget: nat,
                       partial: bool)
    returns (s': Server, left: nat, done: bool)
    requires id < |s.releases| && UnchangedDraft(s.releases[id], tag, sha, body)
    requires DistinctNames(files) && Verified(s.releases[id].assets, files, false)
    ensures OnlyAssets(s, s', id)
    ensures done ==> Verified(s'.releases[id].assets, files, true) && left + 2 * |files| >= budget
    ensures budget >= 2 * |files| ==> done
    ensures !partial ==> Verified(s'.releases[id].assets, files, false)
    ensures partial && budget == 1 && !Verified(s.releases[id].assets, files, true) ==>
              Unfinished(s'.releases[id].assets)
  {
    var present := s.releases[id].assets;
    s', left, done := s, budget, false;
    for k := 0 to |files|
      invariant OnlyAssets(s, s', id) && !done
      invariant Verified(s'.releases[id].assets, files, false)
      invariant forall name :: HasAsset(s'.releases[id].assets, name) <==>
                  HasAsset(present, name) || exists j :: 0 <= j < k && files[j].name == name
      invariant left + 2 * k >= budget
      invariant budget == 1 ==> s' == s && left == 1 && forall j :: 0 <= j < k ==> HasAsset(present, files[j].name)
    {
      if !HasAsset(present, files[k].name) {
        if left == 0 {
          return;
        }
        left := left - 1;
        assert UnchangedDraft(s'.releases[id], tag, sha, body);
        if left == 0 {
          if partial {
            ghost var last := |s'.releases[id].assets|;
            s' := PostAsset(s', id, files[k], false);
            assert !s'.releases[id].assets[last].uploaded;
          }
          return;
        }
        left := left - 1;
        AddGenuine(s'.releases[id].assets, files, k);
        s' := PostAsset(s', id, files[k], true);
      }
    }
    done := true;
  }

  // --- Opening the draft ---

  lemma {:induction false} MatchesByTags(a: seq<Release>, b: seq<Release>, tag: string, n: nat)
    requires n <= |a| && n <= |b| && forall i :: 0 <= i < n ==> a[i].tag == b[i].tag
    ensures Matches(a, tag, n) == Matches(b, tag, n)
  {
    if n > 0 {
      MatchesByTags(a, b, tag, n - 1);
    }
  }

  lemma {:induction false} NoMatches(releases: seq<Release>, tag: string, n: nat)
    requires n <= |releases| && forall i :: 0 <= i < n ==> releases[i].tag != tag
    ensures Matches(releases, tag, n) == []
  {
    if n > 0 {
      NoMatches(releases, tag, n - 1);
    }
  }

  /** Changing the assets of the draft keeps the server sound. */
  lemma AssetsKeepSound(s: Server, s': Server, id: nat, tag: string, sha: string, builds: set<Build>)
    requires Sound(s, tag, sha, builds) && OnlyAssets(s, s', id) && s.releases[id].draft && s.releases[id].tag == tag
    ensures Sound(s', tag, sha, builds) && Evolves(s, s', tag)
  {
    MatchesByTags(s.releases, s'.releases, tag, |s.releases|);
    assert Bound(s, s.releases[id], tag, sha, builds);
  }

  lemma MoreBuildsKeepSound(s: Server, tag: string, sha: string, builds: set<Build>, build: Build)
    requires Sound(s, tag, sha, builds)
    ensures Sound(s, tag, sha, builds + {build})
  {
  }

  lemma TaggingKeepsSound(s: Server, tag: string, sha: string, builds: set<Build>)
    requires Sound(s, tag, sha, builds) && tag !in s.tags
    ensures Sound(PutTag(s, tag, sha), tag, sha, builds) && Evolves(s, PutTag(s, tag, sha), tag)
    ensures forall i :: 0 <= i < |s.releases| ==> s.releases[i].tag != tag
  {
    forall i | 0 <= i < |s.releases|
      ensures s.releases[i].tag != tag
    {
      assert s.releases[i].tag != tag || Bound(s, s.releases[i], tag, sha, builds);
    }
  }

  lemma DraftingKeepsSound(s: Server, tag: string, sha: string, builds: set<Build>, body: string)
    requires TagCommit(s, tag) == Some(sha) && Matches(s.releases, tag, |s.releases|) == []
    ensures Sound(PostRelease(s, tag, sha, body), tag, sha, builds) && Evolves(s, PostRelease(s, tag, sha, body), tag)
  {
    hide Matches;
    var s' := PostRelease(s, tag, sha, body);
    DraftIsOnlyMatch(s, tag, sha, body);
    OnlyMatch(s', tag);
    assert Bound(s', s'.releases[|s.releases|], tag, sha, builds);
  }

  lemma DraftIsOnlyMatch(s: Server, tag: string, sha: string, body: string)
    requires Matches(s.releases, tag, |s.releases|) == []
    ensures var s' := PostRelease(s, tag, sha, body);
            Matches(s'.releases, tag, |s'.releases|) == [|s.releases|]
  {
    var s' := PostRelease(s, tag, sha, body);
    MatchesByTags(s.releases, s'.releases, tag, |s.releases|);
  }

  /** Nothing has been published or drafted for the tag yet. */
  ghost predicate Untouched(s: Server, tag: string) {
    forall i :: 0 <= i < |s.releases| ==> s.releases[i].tag != tag
  }

  /** A draft of the tag that was made for another body. */
  ghost predicate OtherDraft(s: Server, tag: string, body: string) {
    exists i :: 0 <= i < |s.releases| && s.releases[i].tag == tag && s.releases[i].body != body
  }

  /** The release of the tag holds an unfinished asset. */
  ghost predicate Broken(s: Server, tag: string) {
    exists i :: 0 <= i < |s.releases| && s.releases[i].tag == tag && Unfinished(s.releases[i].assets)
  }

  /** A listing with at most one match holds every release of the tag. */
  lemma OnlyMatch(s: Server, tag: string)
    requires |Matches(s.releases, tag, |s.releases|)| <= 1
    ensures var matches := Matches(s.releases, tag, |s.releases|);
            && (|matches| == 1 ==> matches[0] < |s.releases| && s.releases[matches[0]].tag == tag)
            && forall i :: 0 <= i < |s.releases| && s.releases[i].tag == tag ==> |matches| == 1 && i == matches[0]
  {
    var matches := Matches(s.releases, tag, |s.releases|);
    if |matches| == 1 {
      assert matches[0] in matches;
    }
  }

  lemma DraftingKeepsResumable(s: Server, tag: string, sha: string, build: Build)
    requires TagCommit(s, tag) == Some(sha) && Matches(s.releases, tag, |s.releases|) == []
    requires |s.releases| + 1 < PAGE * PAGES
    ensures Resumable(PostRelease(s, tag, sha, build.body), tag, sha, build)
  {
    hide Matches, Verified;
    var s' := PostRelease(s, tag, sha, build.body);
    DraftIsOnlyMatch(s, tag, sha, build.body);
    OnlyMatch(s', tag);
    EmptyDraftVerifies(build.files);
  }

  lemma TaggingKeepsResumable(s: Server, tag: string, sha: string, build: Build)
    requires Resumable(s, tag, sha, build) && TagCommit(s, tag).None?
    ensures Resumable(PutTag(s, tag, sha), tag, sha, build)
  {
    hide Matches, Verified;
  }

  /** The requests of a first run up to the new draft. */
  function RequestsToDraft(s: Server, tag: string): nat {
    if tag in s.tags then 4 else 5
  }

  /** `publish` up to the draft: read the tag and the releases, tag the commit, create the draft. */
  method OpenDraft(s: Server, tag: string, sha: string, build: Build, budget: nat, ghost builds: set<Build>)
    returns (s': Server, left: nat, id: Option<nat>, refused: bool)
    requires Sound(s, tag, sha, builds)
    ensures Sound(s', tag, sha, builds) && Evolves(s, s', tag)
    ensures refused ==> id.None? && s' == s
    ensures OtherDraft(s, tag, build.body) ==> id.None? && s' == s
    ensures !Untouched(s, tag) ==> s' == s
    ensures id.Some? ==> id.value < |s'.releases| && UnchangedDraft(s'.releases[id.value], tag, sha, build.body)
    ensures id.Some? ==> TagCommit(s', tag) == Some(sha)
    ensures Resumable(s, tag, sha, build) && budget >= 5 ==>
              id.Some? && left >= budget - 5 && Verified(s'.releases[id.value].assets, build.files, false)
    ensures Resumable(s, tag, sha, build) && |s.releases| + 1 < PAGE * PAGES ==> Resumable(s', tag, sha, build)
    ensures id.Some? && Verified(s'.releases[id.value].assets, build.files, false) ==> Resumable(s, tag, sha, build)
    ensures Untouched(s, tag) && id.Some? ==>
              s'.releases[id.value].assets == [] && left == budget - RequestsToDraft(s, tag)
  {
    hide Sound, Evolves, Matches;
    s', left, id, refused := s, budget, None, false;
    EvolvesReflexive(s, tag);
    if left == 0 { return; }
    left := left - 1;
    var commit := TagCommit(s', tag);
    if commit.Some? && commit.value != sha { refused := true; return; }
    if left == 0 { return; }
    left := left - 1;
    var found := FindReleases(s'.releases, tag);
    if found.None? || |found.value| > 1 { refused := true; return; }
    var matches := found.value;
    OnlyMatch(s, tag);
    if |matches| == 1 {
      var r := s'.releases[matches[0]];
      if !r.draft || commit.None? || r.target != sha || r.body != build.body { refused := true; return; }
    }
    if commit.None? {
      if left == 0 { return; }
      left := left - 1;
      TaggingKeepsSound(s, tag, sha, builds);
      if Resumable(s, tag, sha, build) {
        TaggingKeepsResumable(s, tag, sha, build);
      }
      s' := PutTag(s', tag, sha);
    }
    if left == 0 { return; }
    left := left - 1;
    assert TagCommit(s', tag) == Some(sha);
    if |matches| == 1 {
      id := Some(matches[0]);
    } else {
      if left == 0 { return; }
      left := left - 1;
      assert matches == [];
      DraftingKeepsSound(s', tag, sha, builds, build.body);
      if |s'.releases| + 1 < PAGE * PAGES {
        DraftingKeepsResumable(s', tag, sha, build);
      }
      EvolvesTransitive(s, s', PostRelease(s', tag, sha, build.body), tag);
      s' := PostRelease(s', tag, sha, build.body);
      id := Some(|s'.releases| - 1);
    }
  }

  // --- Publishing ---

  ghost predicate PublishedAs(s: Server, tag: string, build: Build) {
    exists i :: 0 <= i < |s.releases| && s.releases[i].tag == tag && !s.releases[i].draft
                && s.releases[i].body == build.body && Verified(s.releases[i].assets, build.files, true)
  }

  /** `publish` from the open draft on: list, upload, verify everything, publish. */
  method FillAndPublish(s: Server, i: nat, tag: string, sha: string, build: Build, budget: nat, partial: bool,
                        ghost builds: set<Build>)
    returns (s': Server, outcome: Outcome)
    requires Sound(s, tag, sha, builds) && build in builds && DistinctNames(build.files)
    requires i < |s.releases| && UnchangedDraft(s.releases[i], tag, sha, build.body) && TagCommit(s, tag) == Some(sha)
    ensures Sound(s', tag, sha, builds) && Evolves(s, s', tag)
    ensures outcome == Published ==> PublishedAs(s', tag, build)
    ensures Verified(s.releases[i].assets, build.files, false) && budget >= 5 + 2 * |build.files| ==>
              outcome == Published
    ensures !Verified(s.releases[i].assets, build.files, false) ==> s' == s && outcome != Published
    ensures Resumable(s, tag, sha, build) && !partial && outcome != Published ==> Resumable(s', tag, sha, build)
    ensures partial && budget == 2 && s.releases[i].assets == [] && build.files != [] ==> Broken(s', tag)
  {
    hide Sound, Evolves, Verified, Resumable;
    s', outcome := s, Stopped;
    EvolvesReflexive(s, tag);
    EmptyDraftVerifies(build.files);
    var left: nat := budget;
    if left == 0 { return; }
    left := left - 1;
    if !Verified(s'.releases[i].assets, build.files, false) {
      outcome := Refused;
      return;
    }
    var done;
    s', left, done := UploadMissing(s, i, build.files, tag, sha, build.body, left, partial);
    AssetsKeepSound(s, s', i, tag, sha, builds);
    if Resumable(s, tag, sha, build) && !partial {
      AssetsKeepResumable(s, s', i, tag, sha, build);
    }
    if !done || left == 0 { return; }
    left := left - 1;
    assert Verified(s'.releases[i].assets, build.files, true);
    if left == 0 { return; }
    left := left - 1;
    assert TagCommit(s', tag) == Some(sha);
    if left == 0 { return; }
    left := left - 1;
    assert UnchangedDraft(s'.releases[i], tag, sha, build.body);
    if left == 0 { return; }
    PublishingKeepsSound(s', i, tag, sha, builds, build);
    var final := WithRelease(s', i, s'.releases[i].(draft := false));
    EvolvesTransitive(s, s', final, tag);
    s', outcome := final, Published;
    assert s'.releases[i].tag == tag && !s'.releases[i].draft && s'.releases[i].body == build.body;
  }

  lemma EmptyDraftVerifies(files: seq<File>)
    ensures Verified([], files, false)
    ensures files != [] ==> !Verified([], files, true)
  {
    if files != [] {
      assert !HasAsset([], files[0].name);
    }
  }

  lemma AssetsKeepResumable(s: Server, s': Server, id: nat, tag: string, sha: string, build: Build)
    requires Resumable(s, tag, sha, build) && OnlyAssets(s, s', id) && s.releases[id].tag == tag
    requires Verified(s'.releases[id].assets, build.files, false)
    ensures Resumable(s', tag, sha, build)
  {
    MatchesByTags(s.releases, s'.releases, tag, |s.releases|);
    hide Matches, Verified;
  }

  lemma BrokenFailsVerification(s: Server, tag: string, sha: string, builds: set<Build>, i: nat, files: seq<File>)
    requires Sound(s, tag, sha, builds) && Broken(s, tag) && i < |s.releases| && s.releases[i].tag == tag
    ensures !Verified(s.releases[i].assets, files, false)
  {
    OnlyMatch(s, tag);
    var j :| 0 <= j < |s.releases| && s.releases[j].tag == tag && Unfinished(s.releases[j].assets);
    var k :| 0 <= k < |s.releases[j].assets| && !s.releases[j].assets[k].uploaded;
    assert j == i && !IsCopy(s.releases[i].assets[k], files);
  }

  /** One run of `publish`, stopped after `budget` requests. */
  method Publish(s: Server, tag: string, sha: string, build: Build, budget: nat, partial: bool,
                 ghost builds: set<Build>)
    returns (s': Server, outcome: Outcome)
    requires Sound(s, tag, sha, builds) && DistinctNames(build.files)
    ensures Sound(s', tag, sha, builds + {build}) && Evolves(s, s', tag)
    ensures outcome == Published ==> PublishedAs(s', tag, build)
    ensures OtherDraft(s, tag, build.body) ==> s' == s && outcome != Published
    ensures Broken(s, tag) ==> s' == s && outcome != Published
    ensures outcome == Published ==> Resumable(s, tag, sha, build)
    ensures budget >= RunLength(build) ==> (outcome == Published <==> Resumable(s, tag, sha, build))
    ensures Untouched(s, tag) && Resumable(s, tag, sha, build) && build.files != []
            && partial && budget == RequestsToDraft(s, tag) + 2 ==>
              Broken(s', tag)
    ensures Resumable(s, tag, sha, build) && !partial && outcome != Published && |s.releases| + 1 < PAGE * PAGES ==>
              Resumable(s', tag, sha, build)
  {
    hide Sound, Evolves, Resumable, OtherDraft, Verified, PublishedAs;
    assert Broken(s, tag) ==> !Untouched(s, tag);
    MoreBuildsKeepSound(s, tag, sha, builds, build);
    var left, id, refused;
    s', left, id, refused := OpenDraft(s, tag, sha, build, budget, builds + {build});
    if id.None? {
      outcome := if refused then Refused else Stopped;
      return;
    }
    var drafted := s';
    if Broken(s, tag) {
      BrokenFailsVerification(s, tag, sha, builds, id.value, build.files);
    }
    s', outcome := FillAndPublish(drafted, id.value, tag, sha, build, left, partial, builds + {build});
    EvolvesTransitive(s, drafted, s', tag);
  }

  lemma EvolvesReflexive(s: Server, tag: string)
    ensures Evolves(s, s, tag)
  {
  }

  lemma PublishingKeepsSound(s: Server, id: nat, tag: string, sha: string, builds: set<Build>, build: Build)
    requires Sound(s, tag, sha, builds) && build in builds && id < |s.releases|
    requires UnchangedDraft(s.releases[id], tag, sha, build.body) && Verified(s.releases[id].assets, build.files, true)
    ensures var s' := WithRelease(s, id, s.releases[id].(draft := false));
            Sound(s', tag, sha, builds) && Evolves(s, s', tag)
  {
    var s' := WithRelease(s, id, s.releases[id].(draft := false));
    MatchesByTags(s.releases, s'.releases, tag, |s.releases|);
    assert Bound(s, s.releases[id], tag, sha, builds);
  }

  datatype Attempt = Attempt(build: Build, budget: nat, partial: bool)

  function BuildsOf(attempts: seq<Attempt>): set<Build> {
    set a | a in attempts :: a.build
  }

  lemma UntouchedIsSound(s: Server, tag: string, sha: string, builds: set<Build>)
    requires Untouched(s, tag)
    ensures Sound(s, tag, sha, builds)
  {
    NoMatches(s.releases, tag, |s.releases|);
  }

  /** Any sequence of runs, each with its own build and stopping anywhere. */
  method Campaign(s: Server, tag: string, sha: string, attempts: seq<Attempt>) returns (s': Server)
    requires Untouched(s, tag) && forall a :: a in attempts ==> DistinctNames(a.build.files)
    ensures Sound(s', tag, sha, BuildsOf(attempts)) && Evolves(s, s', tag)
  {
    hide Sound, Evolves, Resumable, Broken, OtherDraft, PublishedAs, Verified;
    s' := s;
    UntouchedIsSound(s, tag, sha, BuildsOf(attempts[..0]));
    EvolvesReflexive(s, tag);
    for k := 0 to |attempts|
      invariant Sound(s', tag, sha, BuildsOf(attempts[..k])) && Evolves(s, s', tag)
    {
      var a := attempts[k];
      assert a in attempts;
      var before := s';
      var outcome;
      s', outcome := Publish(before, tag, sha, a.build, a.budget, a.partial, BuildsOf(attempts[..k]));
      EvolvesTransitive(s, before, s', tag);
      assert BuildsOf(attempts[..k + 1]) == BuildsOf(attempts[..k]) + {a.build};
    }
    assert attempts[..|attempts|] == attempts;
  }

  /**
   A first run that stops in the middle of its first upload blocks the tag: no later run, with this
   build or another, changes the server any more.
   */
  method StoppedUploadBlocks(s: Server, tag: string, sha: string, build: Build, attempts: seq<Attempt>)
    returns (blocked: Server, s': Server)
    requires Untouched(s, tag) && Resumable(s, tag, sha, build) && DistinctNames(build.files) && build.files != []
    requires forall a :: a in attempts ==> DistinctNames(a.build.files)
    ensures Evolves(s, blocked, tag) && Broken(blocked, tag)
    ensures s' == blocked
  {
    hide Sound, Evolves, Resumable, Broken;
    UntouchedIsSound(s, tag, sha, {});
    var outcome;
    blocked, outcome := Publish(s, tag, sha, build, RequestsToDraft(s, tag) + 2, true, {});
    s' := blocked;
    ghost var builds := {} + {build};
    for k := 0 to |attempts|
      invariant s' == blocked && Sound(s', tag, sha, builds)
    {
      var a := attempts[k];
      assert a in attempts;
      s', outcome := Publish(s', tag, sha, a.build, a.budget, a.partial, builds);
      builds := builds + {a.build};
    }
  }

  /** What soundness means for a reader: one release, never published with anything but one build. */
  lemma PublishedIsOneBuild(s: Server, tag: string, sha: string, builds: set<Build>, i: nat, j: nat) returns (b: Build)
    requires Sound(s, tag, sha, builds) && forall x :: x in builds ==> DistinctNames(x.files)
    requires i < |s.releases| && j < |s.releases| && s.releases[i].tag == tag && s.releases[j].tag == tag
    requires !s.releases[i].draft
    ensures i == j && TagCommit(s, tag) == Some(sha)
    ensures b in builds && s.releases[i].body == b.body && s.releases[i].target == sha
    ensures HoldsExactly(s.releases[i].assets, b.files)
  {
    var matches := Matches(s.releases, tag, |s.releases|);
    assert i in matches && j in matches;
    assert Bound(s, s.releases[i], tag, sha, builds);
    b :| b in builds && s.releases[i].body == b.body && Verified(s.releases[i].assets, b.files, true);
    VerifiedIsExact(s.releases[i].assets, b.files);
  }

  /**
   Retrying one build with whole uploads: as soon as one run gets through, the build is published,
   however the runs before it were cut short, and the runs after it change nothing.
   */
  method Retry(s: Server, tag: string, sha: string, build: Build, budgets: seq<nat>) returns (s': Server)
    requires Untouched(s, tag) && Resumable(s, tag, sha, build) && DistinctNames(build.files)
    requires |s.releases| + 2 < PAGE * PAGES
    ensures Sound(s', tag, sha, {build}) && Evolves(s, s', tag)
    ensures (exists k :: 0 <= k < |budgets| && budgets[k] >= RunLength(build)) ==> PublishedAs(s', tag, build)
  {
    hide Resumable, Verified, PublishedAs, OtherDraft, Sound, Evolves, Broken, Untouched, DistinctNames;
    s' := s;
    UntouchedIsSound(s, tag, sha, {build});
    EvolvesReflexive(s, tag);
    var published := false;
    for k := 0 to |budgets|
      invariant Sound(s', tag, sha, {build}) && Evolves(s, s', tag)
      invariant published ==> PublishedAs(s', tag, build)
      invariant !published ==> Resumable(s', tag, sha, build)
      invariant !published ==> forall j :: 0 <= j < k ==> budgets[j] < RunLength(build)
    {
      var before := s';
      RoomIsLeft(s, before, tag, sha, {build});
      var outcome;
      s', outcome := Publish(before, tag, sha, build, budgets[k], false, {build});
      assert {build} + {build} == {build};
      EvolvesTransitive(s, before, s', tag);
      if published {
        PublishedStays(before, s', tag, build);
      }
      published := published || outcome == Published;
    }
  }

  lemma PublishedStays(s: Server, s': Server, tag: string, build: Build)
    requires PublishedAs(s, tag, build) && Evolves(s, s', tag)
    ensures PublishedAs(s', tag, build)
  {
    var i :| 0 <= i < |s.releases| && s.releases[i].tag == tag && !s.releases[i].draft
             && s.releases[i].body == build.body && Verified(s.releases[i].assets, build.files, true);
    assert s'.releases[i] == s.releases[i];
  }

  /** From an untouched server, runs add at most one release. */
  lemma RoomIsLeft(s: Server, s': Server, tag: string, sha: string, builds: set<Build>)
    requires Untouched(s, tag) && Evolves(s, s', tag) && Sound(s', tag, sha, builds)
    ensures |s'.releases| <= |s.releases| + 1
  {
    SameRelease(s', tag, |s.releases|, |s.releases| + 1);
  }

  lemma SameRelease(s: Server, tag: string, i: nat, j: nat)
    requires |Matches(s.releases, tag, |s.releases|)| <= 1
    ensures i < |s.releases| && j < |s.releases| && s.releases[i].tag == tag && s.releases[j].tag == tag ==> i == j
  {
    OnlyMatch(s, tag);
  }
}
