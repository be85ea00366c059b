/** Contiguous packing of tests by their recorded durations (`split_by_duration`, scripts/run_parallel_unittest.py). */
module DurationPacking {

  const UNKNOWN_TEST_SECONDS: real := 0.05

  function Seconds(test: string, durations: map<string, real>): real {
    if test in durations then durations[test] else UNKNOWN_TEST_SECONDS
  }

  function Total(tests: seq<string>, durations: map<string, real>): real {
    if tests == [] then 0.0 else Total(tests[..|tests| - 1], durations) + Seconds(tests[|tests| - 1], durations)
  }

  function Flatten(chunks: seq<seq<string>>): seq<string> {
    if chunks == [] then [] else Flatten(chunks[..|chunks| - 1]) + chunks[|chunks| - 1]
  }

  /** A chunk stays within the target, or is a single test. */
  predicate Fits(chunk: seq<string>, durations: map<string, real>, target: real) {
    chunk != [] && (|chunk| == 1 || Total(chunk, durations) <= target)
  }

  /** A partition of the tests, in order, into chunks that fit. */
  ghost predicate Packs(chunks: seq<seq<string>>, tests: seq<string>, durations: map<string, real>, target: real) {
    Flatten(chunks) == tests && AllFit(chunks, durations, target)
  }

  ghost predicate Nonnegative(durations: map<string, real>) {
    forall test :: test in durations ==> durations[test] >= 0.0
  }

  // --- The greedy loop, one test at a time ---

  /** The finished chunks and the open one after the first tests. */
  datatype Packing = Packing(chunks: seq<seq<string>>, current: seq<string>)

  function Add(p: Packing, test: string, durations: map<string, real>, target: real): Packing {
    if p.current != [] && Total(p.current, durations) + Seconds(test, durations) > target
    then Packing(p.chunks + [p.current], [test])
    else Packing(p.chunks, p.current + [test])
  }

  function Greedy(tests: seq<string>, durations: map<string, real>, target: real): Packing {
    if tests == [] then Packing([], [])
    else Add(Greedy(tests[..|tests| - 1], durations, target), tests[|tests| - 1], durations, target)
  }

  function Closed(p: Packing): seq<seq<string>> {
    if p.current == [] then p.chunks else p.chunks + [p.current]
  }

  lemma TotalAppend(tests: seq<string>, test: string, durations: map<string, real>)
    ensures Total(tests + [test], durations) == Total(tests, durations) + Seconds(test, durations)
  {
    assert (tests + [test])[..|tests|] == tests;
  }

  lemma FlattenAppend(chunks: seq<seq<string>>, chunk: seq<string>)
    ensures Flatten(chunks + [chunk]) == Flatten(chunks) + chunk
  {
    assert (chunks + [chunk])[..|chunks|] == chunks;
  }

  ghost predicate AllFit(chunks: seq<seq<string>>, durations: map<string, real>, target: real) {
    forall i :: 0 <= i < |chunks| ==> Fits(chunks[i], durations, target)
  }

  /** One test more: the open chunk grows while it may, and a new one starts otherwise. */
  lemma AddKeepsFit(p: Packing, test: string, durations: map<string, real>, target: real)
    requires AllFit(Closed(p), durations, target) && (p.current == [] ==> p.chunks == [])
    ensures var q := Add(p, test, durations, target);
            && AllFit(Closed(q), durations, target) && q.current != []
            && Flatten(q.chunks) + q.current == Flatten(p.chunks) + p.current + [test]
  {
    var q := Add(p, test, durations, target);
    TotalAppend(p.current, test, durations);
    FlattenAppend(p.chunks, p.current);
    hide Total, Flatten;
    assert Fits([test], durations, target);
    forall i | 0 <= i < |Closed(q)|
      ensures Fits(Closed(q)[i], durations, target)
    {
      if i < |q.chunks| {
        assert Closed(q)[i] == Closed(p)[i];
      }
    }
  }

  lemma ClosedFlattens(p: Packing)
    ensures Flatten(Closed(p)) == Flatten(p.chunks) + p.current
  {
    FlattenAppend(p.chunks, p.current);
  }

  /** What the loop keeps: the chunks so far fit, and together they are the tests so far. */
  ghost predicate Sound(p: Packing, tests: seq<string>, durations: map<string, real>, target: real) {
    && AllFit(Closed(p), durations, target)
    && Flatten(p.chunks) + p.current == tests
    && (p.current == [] <==> tests == [])
    && (p.current == [] ==> p.chunks == [])
  }

  lemma AddKeepsSound(p: Packing, front: seq<string>, test: string, durations: map<string, real>, target: real)
    requires Sound(p, front, durations, target)
    ensures Sound(Add(p, test, durations, target), front + [test], durations, target)
  {
    hide Total, Flatten, AllFit, Closed, Add;
    AddKeepsFit(p, test, durations, target);
  }

  lemma EmptyIsSound(durations: map<string, real>, target: real)
    ensures Sound(Packing([], []), [], durations, target)
  {
    assert Closed(Packing([], [])) == [] && Flatten([]) == [];
  }

  lemma {:induction false} GreedyIsSound(tests: seq<string>, durations: map<string, real>, target: real)
    ensures Sound(Greedy(tests, durations, target), tests, durations, target)
    decreases |tests|
  {
    hide Add, Sound;
    if tests == [] {
      EmptyIsSound(durations, target);
    } else {
      var (front, last) := (tests[..|tests| - 1], tests[|tests| - 1]);
      GreedyIsSound(front, durations, target);
      AddKeepsSound(Greedy(front, durations, target), front, last, durations, target);
      assert tests == front + [last];
    }
  }

  /** The greedy chunks partition the tests and fit. */
  lemma GreedyPacks(tests: seq<string>, durations: map<string, real>, target: real)
    ensures Packs(Closed(Greedy(tests, durations, target)), tests, durations, target)
  {
    hide Greedy, AllFit;
    GreedyIsSound(tests, durations, target);
    ClosedFlattens(Greedy(tests, durations, target));
  }

  // --- Optimality ---

  lemma {:induction false} TotalNonnegative(tests: seq<string>, durations: map<string, real>)
    requires Nonnegative(durations)
    ensures Total(tests, durations) >= 0.0
    decreases |tests|
  {
    if tests != [] {
      TotalNonnegative(tests[..|tests| - 1], durations);
    }
  }

  /** The time of a list is the sum over its tests, with a twentieth of a second for an unknown one. */
  lemma TotalIsSum(a: seq<string>, test: string, durations: map<string, real>)
    ensures Total([], durations) == 0.0
    ensures Total(a + [test], durations)
         == Total(a, durations) + (if test in durations then durations[test] else 0.05)
  {
    TotalAppend(a, test, durations);
  }

  lemma {:induction false} TotalSplits(a: seq<string>, b: seq<string>, durations: map<string, real>)
    ensures Total(a + b, durations) == Total(a, durations) + Total(b, durations)
    decreases |b|
  {
    if b == [] {
      assert a + b == a;
    } else {
      assert (a + b)[..|a + b| - 1] == a + b[..|b| - 1];
      TotalSplits(a, b[..|b| - 1], durations);
    }
  }

  /** A part of a chunk that fits also fits. */
  lemma SuffixFits(chunk: seq<string>, suffix: seq<string>, durations: map<string, real>, target: real)
    requires Nonnegative(durations) && Fits(chunk, durations, target)
    requires suffix != [] && |suffix| <= |chunk| && suffix == chunk[|chunk| - |suffix|..]
    ensures Fits(suffix, durations, target)
  {
    var prefix := chunk[..|chunk| - |suffix|];
    assert chunk == prefix + suffix;
    TotalSplits(prefix, suffix, durations);
    TotalNonnegative(prefix, durations);
  }

  /**
   The greedy packing of a prefix is ahead of any other: it has no more chunks, and with as many
   its open chunk is no longer.
   */
  ghost predicate Ahead(p: Packing, others: seq<seq<string>>) {
    var mine := Closed(p);
    || |mine| < |others|
    || (|mine| == |others| && (others == [] || |p.current| <= |others[|others| - 1]|))
  }

  /** Any packing of the tests, cut back to all tests but the last. */
  function WithoutLast(chunks: seq<seq<string>>): seq<seq<string>>
    requires chunks != []
  {
    var (front, last) := (chunks[..|chunks| - 1], chunks[|chunks| - 1]);
    if |last| <= 1 then front else front + [last[..|last| - 1]]
  }

  lemma WithoutLastPacks(chunks: seq<seq<string>>, tests: seq<string>, durations: map<string, real>, target: real)
    requires Nonnegative(durations) && chunks != [] && Packs(chunks, tests, durations, target)
    ensures tests != [] && Packs(WithoutLast(chunks), tests[..|tests| - 1], durations, target)
  {
    var (front, last) := (chunks[..|chunks| - 1], chunks[|chunks| - 1]);
    assert Fits(last, durations, target);
    assert tests == Flatten(front) + last;
    var shorter := last[..|last| - 1];
    assert tests[..|tests| - 1] == Flatten(front) + shorter;
    if |last| > 1 {
      TotalSplits(shorter, [last[|last| - 1]], durations);
      assert shorter + [last[|last| - 1]] == last;
      TotalNonnegative([last[|last| - 1]], durations);
      FlattenAppend(front, shorter);
    } else {
      assert shorter == [];
    }
  }

  /** The greedy loop stays ahead of every packing of the same tests. */
  lemma {:induction false} GreedyStaysAhead(tests: seq<string>, durations: map<string, real>, target: real,
                                            others: seq<seq<string>>)
    requires Nonnegative(durations) && Packs(others, tests, durations, target)
    ensures Ahead(Greedy(tests, durations, target), others)
    decreases |tests|
  {
    hide Sound, Add;
    if tests == [] {
      assert Closed(Greedy(tests, durations, target)) == [];
    } else {
      assert others != [];
      var (front, test) := (tests[..|tests| - 1], tests[|tests| - 1]);
      var before := WithoutLast(others);
      WithoutLastPacks(others, tests, durations, target);
      GreedyStaysAhead(front, durations, target, before);
      GreedyIsSound(front, durations, target);
      StepStaysAhead(tests, Greedy(front, durations, target), durations, target, others);
    }
  }

  lemma StepStaysAhead(tests: seq<string>, p: Packing, durations: map<string, real>, target: real,
                       others: seq<seq<string>>)
    requires Nonnegative(durations) && tests != [] && others != [] && Packs(others, tests, durations, target)
    requires Ahead(p, WithoutLast(others))
    requires Sound(p, tests[..|tests| - 1], durations, target)
    ensures Ahead(Add(p, tests[|tests| - 1], durations, target), others)
  {
    hide Total, Add, AllFit, Flatten;
    var test := tests[|tests| - 1];
    LastFits(others, durations, target);
    AddCounts(p, test, durations, target);
    if |others[|others| - 1]| > 1 && |Closed(p)| == |others| {
      TestFitsOpenChunk(tests, p, durations, target, others);
    }
  }

  /** With as many chunks, the open one is no longer than the other's last, so the test fits in it as well. */
  lemma TestFitsOpenChunk(tests: seq<string>, p: Packing, durations: map<string, real>, target: real,
                          others: seq<seq<string>>)
    requires Nonnegative(durations) && tests != [] && others != [] && Packs(others, tests, durations, target)
    requires Sound(p, tests[..|tests| - 1], durations, target) && p.current != []
    requires |p.current| + 1 <= |others[|others| - 1]|
    ensures Total(p.current, durations) + Seconds(tests[|tests| - 1], durations) <= target
  {
    hide Total, AllFit, Flatten, Fits;
    var (test, last) := (tests[|tests| - 1], others[|others| - 1]);
    EndChunks(tests, p, test, others);
    LastFits(others, durations, target);
    OpenChunkHasRoom(tests, p.current, test, last, durations, target);
  }

  lemma LastFits(chunks: seq<seq<string>>, durations: map<string, real>, target: real)
    requires chunks != [] && AllFit(chunks, durations, target)
    ensures Fits(chunks[|chunks| - 1], durations, target)
  {
  }

  /** The last chunk of a partition and the grown open chunk are both ends of the tests. */
  lemma EndChunks(tests: seq<string>, p: Packing, test: string, others: seq<seq<string>>)
    requires tests != [] && others != [] && Flatten(others) == tests && test == tests[|tests| - 1]
    requires Flatten(p.chunks) + p.current == tests[..|tests| - 1]
    ensures var last := others[|others| - 1];
            && |last| <= |tests| && last == tests[|tests| - |last|..]
            && |p.current| + 1 <= |tests| && p.current + [test] == tests[|tests| - |p.current| - 1..]
  {
    var last := others[|others| - 1];
    assert tests == Flatten(others[..|others| - 1]) + last;
    assert tests == Flatten(p.chunks) + (p.current + [test]);
  }

  lemma AddCounts(p: Packing, test: string, durations: map<string, real>, target: real)
    requires p.current == [] ==> p.chunks == []
    ensures var q := Add(p, test, durations, target);
            if p.current != [] && Total(p.current, durations) + Seconds(test, durations) <= target
            then |Closed(q)| == |Closed(p)| && |q.current| == |p.current| + 1
            else |Closed(q)| == |Closed(p)| + 1 && |q.current| == 1
  {
  }

  /** Both chunks end the tests; the shorter one is a suffix of the longer, which fits. */
  lemma OpenChunkHasRoom(tests: seq<string>, current: seq<string>, test: string, last: seq<string>,
                         durations: map<string, real>, target: real)
    requires Nonnegative(durations) && Fits(last, durations, target) && current != []
    requires |current| + 1 <= |last| <= |tests|
    requires last == tests[|tests| - |last|..] && current + [test] == tests[|tests| - |current| - 1..]
    ensures Total(current, durations) + Seconds(test, durations) <= target
  {
    var grown := current + [test];
    assert grown == last[|last| - |grown|..];
    SuffixFits(last, grown, durations, target);
    TotalAppend(current, test, durations);
  }

  /** No partition into chunks that fit has fewer chunks than the greedy one. */
  lemma GreedyIsOptimal(tests: seq<string>, durations: map<string, real>, target: real, others: seq<seq<string>>)
    requires Nonnegative(durations) && Packs(others, tests, durations, target)
    ensures |Closed(Greedy(tests, durations, target))| <= |others|
  {
    GreedyStaysAhead(tests, durations, target, others);
  }

  /** The first test of the next chunk would take this one over the target. */
  predicate Full(chunk: seq<string>, next: seq<string>, durations: map<string, real>, target: real) {
    next != [] && Total(chunk + [next[0]], durations) > target
  }

  /** No chunk has room for the first test of the next one. */
  ghost predicate NoRoom(chunks: seq<seq<string>>, durations: map<string, real>, target: real) {
    forall i, j :: 0 <= i < |chunks| && 0 <= j < |chunks| && j == i + 1 ==>
      Full(chunks[i], chunks[j], durations, target)
  }

  lemma {:induction false} GreedyFillsChunks(tests: seq<string>, durations: map<string, real>, target: real)
    ensures NoRoom(Closed(Greedy(tests, durations, target)), durations, target)
    decreases |tests|
  {
    if tests == [] {
      assert Closed(Greedy(tests, durations, target)) == [];
    } else {
      var (front, test) := (tests[..|tests| - 1], tests[|tests| - 1]);
      GreedyFillsChunks(front, durations, target);
      GreedyIsSound(front, durations, target);
      AddFillsChunks(Greedy(front, durations, target), test, durations, target);
    }
  }

  lemma AddFillsChunks(p: Packing, test: string, durations: map<string, real>, target: real)
    requires NoRoom(Closed(p), durations, target) && (p.current == [] ==> p.chunks == [])
    ensures NoRoom(Closed(Add(p, test, durations, target)), durations, target)
  {
    var (before, after) := (Closed(p), Closed(Add(p, test, durations, target)));
    TotalAppend(p.current, test, durations);
    hide Total;
    forall i, j | 0 <= i < |after| && 0 <= j < |after| && j == i + 1
      ensures Full(after[i], after[j], durations, target)
    {
      if j < |before| {
        assert Full(before[i], before[j], durations, target);
        assert after[i] == before[i] && after[j][0] == before[j][0];
      }
    }
  }

  /**
   `split_by_duration`. Without any recorded duration the tests stay one chunk; otherwise the chunks
   partition the tests, fit, and are as few as possible.
   */
  method SplitByDuration(tests: seq<string>, durations: map<string, real>, target: real)
    returns (chunks: seq<seq<string>>)
    ensures durations == map[] ==> chunks == [tests]
    ensures durations != map[] ==> Packs(chunks, tests, durations, target)
    ensures durations != map[] ==> NoRoom(chunks, durations, target)
    ensures durations != map[] && Nonnegative(durations) ==>
              forall others :: Packs(others, tests, durations, target) ==> |chunks| <= |others|
  {
    if durations == map[] {
      return [tests];
    }
    chunks := [];
    var current: seq<string> := [];
    var currentSeconds := 0.0;
    for i := 0 to |tests|
      invariant Packing(chunks, current) == Greedy(tests[..i], durations, target)
      invariant currentSeconds == Total(current, durations)
    {
      var seconds := Seconds(tests[i], durations);
      assert tests[..i + 1][..i] == tests[..i];
      if current != [] && currentSeconds + seconds > target {
        chunks := chunks + [current];
        current, currentSeconds := [], 0.0;
      }
      TotalAppend(current, tests[i], durations);
      current := current + [tests[i]];
      currentSeconds := currentSeconds + seconds;
    }
    assert tests[..|tests|] == tests;
    GreedyIsSound(tests, durations, target);
    GreedyPacks(tests, durations, target);
    GreedyFillsChunks(tests, durations, target);
    if current != [] {
      chunks := chunks + [current];
    }
    if Nonnegative(durations) {
      forall others | Packs(others, tests, durations, target)
        ensures |chunks| <= |others|
      {
        GreedyIsOptimal(tests, durations, target, others);
      }
    }
  }
}
