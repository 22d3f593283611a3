/** Fingerprint-guarded ingestion: rag/ingest_cli.py (bootstrap), rag/qdrant_store.py (collections and points)
    and the write half of rag/ingest.py.

    A bootstrap is a list of writes to one named collection, decided by reading the store; a crash keeps a prefix
    of the list.  `VectorStore` runs the code step by step and is proved to perform exactly those writes. */
module Ingestion {
  import opened Common

  const MARKER_ID := 0
  const PROTECTED_LEGACY_COLLECTIONS := {"istanbul_rag_B", "istanbul_rag_B_r1_shadow"}

  /** The payloads that matter here: the fingerprint marker, and a chunk with the version it was written under. */
  datatype Point<B> = Marker(fingerprint: string) | ChunkPoint(chunkId: string, version: string, body: B)

  type Collection<B> = map<int, Point<B>>
  type Store<B> = map<string, Collection<B>>

  datatype Chunk<B> = Chunk(id: string, body: B)

  /** One invocation: the target, the fingerprint of corpus and configuration, the chunks they produce. */
  datatype Job<B> = Job(name: string, fingerprint: string, rebuild: bool, chunks: seq<Chunk<B>>)

  datatype Status = Missing | Empty | Mismatch | Ready
  datatype Outcome = RefusedProtected | RefusedMismatch | AlreadyReady | WrongMarker | Bootstrapped | Crashed

  datatype Write<B> = Drop | Create | Put(id: int, point: Point<B>)

  // ---- Reading ----

  function StoredFingerprint<B>(c: Collection<B>): Option<string> {
    if MARKER_ID in c && c[MARKER_ID].Marker? then Some(c[MARKER_ID].fingerprint) else None
  }

  function CollectionStatus<B>(store: Store<B>, name: string, expected: string): Status {
    if name !in store then Missing
    else if |store[name]| <= 1 then Empty
    else if StoredFingerprint(store[name]) != Some(expected) then Mismatch
    else Ready
  }

  // ---- Writing ----

  function Apply<B>(store: Store<B>, name: string, w: Write<B>): Store<B> {
    match w
    case Drop => store - {name}
    case Create => store[name := map[]]
    case Put(id, point) => if name in store then store[name := store[name][id := point]] else store
  }

  function ApplyAll<B>(store: Store<B>, name: string, ws: seq<Write<B>>): Store<B> {
    if ws == [] then store else Apply(ApplyAll(store, name, ws[..|ws| - 1]), name, ws[|ws| - 1])
  }

  function Puts<B>(chunks: seq<Chunk<B>>, fingerprint: string, pointId: string -> int): seq<Write<B>> {
    seq(|chunks|, i requires 0 <= i < |chunks| =>
      Put(pointId(chunks[i].id), ChunkPoint(chunks[i].id, fingerprint, chunks[i].body)))
  }

  /** The writes of `ingest_config`, and whether it raises on the marker instead. */
  function IngestPlan<B>(present: bool, stored: Option<string>, job: Job<B>, pointId: string -> int): (seq<Write<B>>, Outcome) {
    if !present then ([Create, Put(MARKER_ID, Marker(job.fingerprint))] + Puts(job.chunks, job.fingerprint, pointId), Bootstrapped)
    else if stored != Some(job.fingerprint) then ([], WrongMarker)
    else (Puts(job.chunks, job.fingerprint, pointId), Bootstrapped)
  }

  function BootstrapPlan<B>(store: Store<B>, job: Job<B>, pointId: string -> int): (seq<Write<B>>, Outcome) {
    if job.rebuild && job.name in PROTECTED_LEGACY_COLLECTIONS then ([], RefusedProtected)
    else match CollectionStatus(store, job.name, job.fingerprint)
      case Ready => ([], AlreadyReady)
      case Mismatch =>
        if !job.rebuild then ([], RefusedMismatch)
        else var (ws, outcome) := IngestPlan(false, None, job, pointId); ([Drop] + ws, outcome)
      case _ =>
        IngestPlan(job.name in store, if job.name in store then StoredFingerprint(store[job.name]) else None, job, pointId)
  }

  /** The collection carries the marker of this fingerprint. */
  predicate IsMarked<B>(store: Store<B>, name: string, fingerprint: string) {
    name in store && MARKER_ID in store[name] && store[name][MARKER_ID] == Marker(fingerprint)
  }

  /** More than the marker is stored. */
  predicate IsFilled<B>(store: Store<B>, name: string) { name in store && |store[name]| > 1 }

  /** What a bootstrap that runs to its end comes to, told from the request and the store alone: a protected name is
      not rebuilt; a filled collection is ready under its own marker and refused under another, unless it is rebuilt; an
      existing collection that is not filled raises without the marker; and anything else is built. */
  lemma OutcomesExactlyWhen<B>(store: Store<B>, job: Job<B>, pointId: string -> int)
    ensures var outcome := BootstrapPlan(store, job, pointId).1;
      var refused := job.rebuild && job.name in PROTECTED_LEGACY_COLLECTIONS;
      var marked, filled := IsMarked(store, job.name, job.fingerprint), IsFilled(store, job.name);
      && (outcome == RefusedProtected <==> refused)
      && (outcome == AlreadyReady <==> !refused && filled && marked)
      && (outcome == RefusedMismatch <==> filled && !marked && !job.rebuild)
      && (outcome == WrongMarker <==> !refused && job.name in store && !filled && !marked)
      && (outcome == Bootstrapped <==>
            !refused && (job.name !in store || (!filled && marked) || (filled && !marked && job.rebuild)))
      && (outcome != Bootstrapped ==> BootstrapPlan(store, job, pointId).0 == [])
  {
  }

  /** The store after a bootstrap that dies after `budget` writes (or runs to its end when there are fewer). */
  function After<B>(store: Store<B>, job: Job<B>, budget: nat, pointId: string -> int): Store<B> {
    var ws := BootstrapPlan(store, job, pointId).0;
    ApplyAll(store, job.name, ws[..Min(budget, |ws|)])
  }

  // ---- The code, step by step ----

  class VectorStore<B> {
    var collections: Store<B>
    var budget: nat

    constructor (collections: Store<B>, budget: nat)
      ensures this.collections == collections && this.budget == budget
    {
      this.collections, this.budget := collections, budget;
    }

    /** One write to the server, unless the process is already dead. */
    method Perform(name: string, w: Write<B>) returns (alive: bool)
      modifies this
      ensures alive <==> old(budget) > 0
      ensures collections == if alive then Apply(old(collections), name, w) else old(collections)
      ensures budget == if alive then old(budget) - 1 else 0
    {
      alive := budget > 0;
      if alive {
        match w {
          case Drop => collections := collections - {name};
          case Create => collections := collections[name := map[]];
          case Put(id, point) =>
            if name in collections {
              collections := collections[name := collections[name][id := point]];
            }
        }
        budget := budget - 1;
      }
    }

    method EnsureCollection(name: string, fingerprint: string) returns (o: Outcome)
      modifies this
      ensures name in old(collections) ==>
        (collections == old(collections) && budget == old(budget) &&
         o == if StoredFingerprint(collections[name]) == Some(fingerprint) then Bootstrapped else WrongMarker)
      ensures name !in old(collections) ==>
        (var ws := [Create, Put(MARKER_ID, Marker(fingerprint))];
         var n := Min(old(budget), 2);
         collections == ApplyAll(old(collections), name, ws[..n]) && budget == old(budget) - n &&
         o == if n == 2 then Bootstrapped else Crashed)
    {
      if name !in collections {
        ghost var ws: seq<Write<B>> := [Create, Put(MARKER_ID, Marker(fingerprint))];
        assert ws[..2][..1] == ws[..1] == [Create] && ws[..1][..0] == ws[..0] == [];
        assert ApplyAll(old(collections), name, ws[..1]) == Apply(old(collections), name, Create);
        var alive := Perform(name, Create);
        if alive {
          alive := Perform(name, Put(MARKER_ID, Marker(fingerprint)));
        }
        return if alive then Bootstrapped else Crashed;
      }
      if StoredFingerprint(collections[name]) != Some(fingerprint) {
        return WrongMarker;
      }
      return Bootstrapped;
    }

    method UpsertChunks(name: string, chunks: seq<Chunk<B>>, fingerprint: string, pointId: string -> int) returns (o: Outcome)
      modifies this
      ensures var ws := Puts(chunks, fingerprint, pointId);
        var n := Min(old(budget), |ws|);
        collections == ApplyAll(old(collections), name, ws[..n]) && budget == old(budget) - n &&
        o == if n == |ws| then Bootstrapped else Crashed
    {
      ghost var ws := Puts(chunks, fingerprint, pointId);
      for i := 0 to |chunks|
        invariant budget == old(budget) - i && collections == ApplyAll(old(collections), name, ws[..i])
      {
        var alive := Perform(name, Put(pointId(chunks[i].id), ChunkPoint(chunks[i].id, fingerprint, chunks[i].body)));
        if !alive {
          return Crashed;
        }
        assert ws[..i + 1][..i] == ws[..i];
      }
      return Bootstrapped;
    }

    method IngestConfig(job: Job<B>, pointId: string -> int) returns (o: Outcome)
      modifies this
      ensures var plan := IngestPlan(job.name in old(collections),
          if job.name in old(collections) then StoredFingerprint(old(collections)[job.name]) else None, job, pointId);
        var n := Min(old(budget), |plan.0|);
        collections == ApplyAll(old(collections), job.name, plan.0[..n]) && budget == old(budget) - n &&
        o == if n == |plan.0| then plan.1 else Crashed
    {
      ghost var ws: seq<Write<B>> := [Create, Put(MARKER_ID, Marker(job.fingerprint))];
      ghost var puts := Puts(job.chunks, job.fingerprint, pointId);
      o := EnsureCollection(job.name, job.fingerprint);
      if o != Bootstrapped {
        assert (ws + puts)[..Min(old(budget), 2)] == ws[..Min(old(budget), 2)];
        return;
      }
      o := UpsertChunks(job.name, job.chunks, job.fingerprint, pointId);
      ghost var n := Min(old(budget), 2 + |puts|) - 2;
      if job.name !in old(collections) {
        ApplySplit(old(collections), job.name, ws, puts[..n]);
        assert (ws + puts)[..n + 2] == ws + puts[..n];
        assert ws[..2] == ws;
      }
    }

    method Bootstrap(job: Job<B>, pointId: string -> int) returns (o: Outcome)
      modifies this
      ensures collections == After(old(collections), job, old(budget), pointId)
      ensures var plan := BootstrapPlan(old(collections), job, pointId);
        o == if old(budget) < |plan.0| then Crashed else plan.1
    {
      hide IngestPlan;
      if job.rebuild && job.name in PROTECTED_LEGACY_COLLECTIONS {
        return RefusedProtected;
      }
      var status := CollectionStatus(collections, job.name, job.fingerprint);
      if status == Ready {
        return AlreadyReady;
      }
      if status == Mismatch {
        if !job.rebuild {
          return RefusedMismatch;
        }
        var alive := Perform(job.name, Drop);
        if !alive {
          return Crashed;
        }
        ghost var ws := IngestPlan(false, None, job, pointId).0;
        assert collections == old(collections) - {job.name};
        o := IngestConfig(job, pointId);
        RebuildPrefix(old(collections), job.name, ws, Min(old(budget), |ws| + 1) - 1);
        return;
      }
      o := IngestConfig(job, pointId);
    }
  }

  lemma {:induction false} ApplySplit<B>(store: Store<B>, name: string, a: seq<Write<B>>, b: seq<Write<B>>)
    ensures ApplyAll(store, name, a + b) == ApplyAll(ApplyAll(store, name, a), name, b)
    decreases |b|
  {
    if b == [] {
      assert a + b == a;
    } else {
      var front := b[..|b| - 1];
      ApplySplit(store, name, a, front);
      assert (a + b)[..|a + b| - 1] == a + front;
    }
  }

  // ---- No mixing ----

  /** Every chunk was written under the fingerprint its collection's marker records. */
  ghost predicate Unmixed<B>(c: Collection<B>) {
    forall id <- c :: c[id].ChunkPoint? ==> MARKER_ID in c && c[MARKER_ID] == Marker(c[id].version)
  }

  ghost predicate NoMixing<B>(store: Store<B>) {
    forall name <- store :: Unmixed(store[name])
  }

  /** No chunk id hashes to the id reserved for the marker. */
  ghost predicate AvoidsMarker<B>(chunks: seq<Chunk<B>>, pointId: string -> int) {
    forall i :: 0 <= i < |chunks| ==> pointId(chunks[i].id) != MARKER_ID
  }

  lemma {:induction false} OtherCollectionsKept<B>(store: Store<B>, name: string, ws: seq<Write<B>>)
    ensures ApplyAll(store, name, ws) - {name} == store - {name}
  {
    if ws != [] {
      OtherCollectionsKept(store, name, ws[..|ws| - 1]);
    }
  }

  lemma {:induction false} PutsKeepUnmixed<B>(store: Store<B>, name: string, chunks: seq<Chunk<B>>, fingerprint: string,
                                              pointId: string -> int, n: nat)
    requires AvoidsMarker(chunks, pointId) && n <= |chunks|
    requires name in store && Unmixed(store[name]) && StoredFingerprint(store[name]) == Some(fingerprint)
    ensures var after := ApplyAll(store, name, Puts(chunks, fingerprint, pointId)[..n]);
            name in after && Unmixed(after[name]) && StoredFingerprint(after[name]) == Some(fingerprint)
  {
    var ws := Puts(chunks, fingerprint, pointId);
    if n > 0 {
      PutsKeepUnmixed(store, name, chunks, fingerprint, pointId, n - 1);
      assert ws[..n][..n - 1] == ws[..n - 1];
    }
  }

  /** A build from nothing: no collection, an empty one, then the marker and a prefix of the chunks. */
  lemma BuildPrefix<B>(store: Store<B>, job: Job<B>, pointId: string -> int, n: nat)
    requires job.name !in store && n <= 2 + |job.chunks|
    ensures var after := ApplyAll(store, job.name, IngestPlan(false, None, job, pointId).0[..n]);
            if n == 0 then after == store
            else if n == 1 then after == store[job.name := map[]]
            else after == ApplyAll(store[job.name := map[MARKER_ID := Marker(job.fingerprint)]], job.name,
                                   Puts(job.chunks, job.fingerprint, pointId)[..n - 2])
  {
    var head: seq<Write<B>> := [Create, Put(MARKER_ID, Marker(job.fingerprint))];
    var puts := Puts(job.chunks, job.fingerprint, pointId);
    assert head[..1] == [Create] && head[..1][..0] == [];
    var made := store[job.name := map[]];
    assert ApplyAll(store, job.name, head[..1]) == Apply(store, job.name, Create) == made;
    var marked := made[job.name := made[job.name][MARKER_ID := Marker(job.fingerprint)]];
    assert ApplyAll(store, job.name, head) == Apply(made, job.name, head[1]) == marked;
    assert marked == store[job.name := map[MARKER_ID := Marker(job.fingerprint)]];
    if n < 2 {
      assert (head + puts)[..n] == head[..n];
    } else {
      assert (head + puts)[..n] == head + puts[..n - 2];
      ApplySplit(store, job.name, head, puts[..n - 2]);
    }
  }

  lemma BuildKeepsUnmixed<B>(store: Store<B>, job: Job<B>, pointId: string -> int, n: nat)
    requires job.name !in store && n <= 2 + |job.chunks| && AvoidsMarker(job.chunks, pointId)
    ensures var after := ApplyAll(store, job.name, IngestPlan(false, None, job, pointId).0[..n]);
            job.name in after ==> Unmixed(after[job.name])
  {
    BuildPrefix(store, job, pointId, n);
    if n >= 2 {
      PutsKeepUnmixed(store[job.name := map[MARKER_ID := Marker(job.fingerprint)]], job.name, job.chunks, job.fingerprint, pointId, n - 2);
    }
  }

  /** A rebuild is a build after the collection is gone. */
  lemma RebuildPrefix<B>(store: Store<B>, name: string, ws: seq<Write<B>>, n: nat)
    requires n <= |ws|
    ensures ApplyAll(store, name, ([Drop] + ws)[..n + 1]) == ApplyAll(store - {name}, name, ws[..n])
  {
    assert ([Drop] + ws)[..n + 1] == [Drop] + ws[..n];
    ApplySplit(store, name, [Drop], ws[..n]);
    assert ApplyAll(store, name, [Drop]) == Apply(store, name, Drop);
  }

  /** One bootstrap, whatever it is asked and wherever it dies: the named collection stays unmixed and no other changes. */
  lemma BootstrapKeepsCollectionsUnmixed<B>(store: Store<B>, job: Job<B>, budget: nat, pointId: string -> int)
    requires NoMixing(store) && AvoidsMarker(job.chunks, pointId)
    ensures NoMixing(After(store, job, budget, pointId))
    ensures After(store, job, budget, pointId) - {job.name} == store - {job.name}
  {
    var ws := BootstrapPlan(store, job, pointId).0;
    var n := Min(budget, |ws|);
    var after := After(store, job, budget, pointId);
    OtherCollectionsKept(store, job.name, ws[..n]);
    if n > 0 {
      if job.name !in store {
        BuildKeepsUnmixed(store, job, pointId, n);
      } else if CollectionStatus(store, job.name, job.fingerprint) == Mismatch {
        var build := IngestPlan(false, None, job, pointId).0;
        RebuildPrefix(store, job.name, build, n - 1);
        BuildKeepsUnmixed(store - {job.name}, job, pointId, n - 1);
      } else {
        PutsKeepUnmixed(store, job.name, job.chunks, job.fingerprint, pointId, n);
      }
    }
    forall name | name in after ensures Unmixed(after[name]) {
      if name != job.name {
        assert name in after - {job.name};
      }
    }
  }

  // ---- Over every sequence of bootstraps and crashes ----

  datatype Run<B> = Run(job: Job<B>, budget: nat)

  function AfterAll<B>(store: Store<B>, runs: seq<Run<B>>, pointId: string -> int): Store<B> {
    if runs == [] then store
    else var last := runs[|runs| - 1];
      After(AfterAll(store, runs[..|runs| - 1], pointId), last.job, last.budget, pointId)
  }

  /** No sequence of bootstraps, of any names, configurations and crash points, ever mixes two fingerprints. */
  lemma {:induction false} NothingIsEverMixed<B>(store: Store<B>, runs: seq<Run<B>>, pointId: string -> int)
    requires NoMixing(store)
    requires forall i :: 0 <= i < |runs| ==> AvoidsMarker(runs[i].job.chunks, pointId)
    ensures NoMixing(AfterAll(store, runs, pointId))
  {
    if runs != [] {
      var last := runs[|runs| - 1];
      NothingIsEverMixed(store, runs[..|runs| - 1], pointId);
      BootstrapKeepsCollectionsUnmixed(AfterAll(store, runs[..|runs| - 1], pointId), last.job, last.budget, pointId);
    }
  }

  /** A protected collection that holds more than one point never changes, whatever is run against it. */
  lemma {:induction false} ProtectedCollectionNeverChanges<B>(store: Store<B>, runs: seq<Run<B>>, pointId: string -> int, name: string)
    requires name in PROTECTED_LEGACY_COLLECTIONS && name in store && |store[name]| > 1
    ensures name in AfterAll(store, runs, pointId) && AfterAll(store, runs, pointId)[name] == store[name]
  {
    if runs != [] {
      var last, before := runs[|runs| - 1], AfterAll(store, runs[..|runs| - 1], pointId);
      ProtectedCollectionNeverChanges(store, runs[..|runs| - 1], pointId, name);
      if last.job.name != name {
        OthersAreKept(before, last, pointId, name);
      }
    }
  }

  /** A collection no run names never changes. */
  lemma {:induction false} UnnamedCollectionNeverChanges<B>(store: Store<B>, runs: seq<Run<B>>, pointId: string -> int, name: string)
    requires forall i :: 0 <= i < |runs| ==> runs[i].job.name != name
    ensures name in AfterAll(store, runs, pointId) <==> name in store
    ensures name in store ==> AfterAll(store, runs, pointId)[name] == store[name]
  {
    if runs != [] {
      var last, before := runs[|runs| - 1], AfterAll(store, runs[..|runs| - 1], pointId);
      UnnamedCollectionNeverChanges(store, runs[..|runs| - 1], pointId, name);
      OthersAreKept(before, last, pointId, name);
    }
  }

  // ---- No loss without the rebuild flag ----

  lemma {:induction false} PutsOnlyWriteTheirIds<B>(store: Store<B>, name: string, chunks: seq<Chunk<B>>, fingerprint: string,
                                                    pointId: string -> int, n: nat, id: int)
    requires n <= |chunks| && name in store && id in store[name]
    requires forall i :: 0 <= i < |chunks| ==> pointId(chunks[i].id) != id
    ensures var after := ApplyAll(store, name, Puts(chunks, fingerprint, pointId)[..n]);
            name in after && id in after[name] && after[name][id] == store[name][id]
  {
    var ws := Puts(chunks, fingerprint, pointId);
    if n > 0 {
      PutsOnlyWriteTheirIds(store, name, chunks, fingerprint, pointId, n - 1, id);
      assert ws[..n][..n - 1] == ws[..n - 1];
    }
  }

  /** Without --rebuild-on-fingerprint-mismatch no stored point is ever dropped or replaced. */
  lemma NoLossWithoutRebuild<B>(store: Store<B>, job: Job<B>, budget: nat, pointId: string -> int, name: string, id: int)
    requires !job.rebuild && AvoidsMarker(job.chunks, pointId)
    requires name in store && id in store[name]
    ensures var after := After(store, job, budget, pointId);
            name in after && id in after[name] && after[name][id] == store[name][id]
  {
    var ws := BootstrapPlan(store, job, pointId).0;
    var n := Min(budget, |ws|);
    if name != job.name {
      OtherCollectionsKept(store, job.name, ws[..n]);
      assert name in store - {job.name};
    } else if n > 0 {
      OnlyPoint(store[name], MARKER_ID, id);
      PutsOnlyWriteTheirIds(store, name, job.chunks, job.fingerprint, pointId, n, id);
    }
  }

  /** Over every sequence of bootstraps and crashes, a point of a collection that no rebuild names is never dropped or
      replaced, whatever is rebuilt elsewhere. */
  lemma {:induction false} NoLossWhereNothingIsRebuilt<B>(store: Store<B>, runs: seq<Run<B>>, pointId: string -> int,
                                                          name: string, id: int)
    requires name in store && id in store[name]
    requires forall i :: 0 <= i < |runs| && runs[i].job.name == name ==>
      !runs[i].job.rebuild && AvoidsMarker(runs[i].job.chunks, pointId)
    ensures var after := AfterAll(store, runs, pointId);
            name in after && id in after[name] && after[name][id] == store[name][id]
  {
    if runs != [] {
      hide After;
      hide AvoidsMarker;
      var last, before := runs[|runs| - 1], AfterAll(store, runs[..|runs| - 1], pointId);
      NoLossWhereNothingIsRebuilt(store, runs[..|runs| - 1], pointId, name, id);
      if last.job.name == name {
        NoLossWithoutRebuild(before, last.job, last.budget, pointId, name, id);
      } else {
        OthersAreKept(before, last, pointId, name);
      }
    }
  }

  lemma OthersAreKept<B>(store: Store<B>, run: Run<B>, pointId: string -> int, name: string)
    requires run.job.name != name
    ensures var after := After(store, run.job, run.budget, pointId);
            (name in after <==> name in store) && (name in store ==> after[name] == store[name])
  {
    hide BootstrapPlan;
    var ws := BootstrapPlan(store, run.job, pointId).0;
    var after := After(store, run.job, run.budget, pointId);
    OtherCollectionsKept(store, run.job.name, ws[..Min(run.budget, |ws|)]);
    assert name in after <==> name in after - {run.job.name};
    assert name in store <==> name in store - {run.job.name};
  }

  lemma OnlyPoint<B>(c: Collection<B>, a: int, b: int)
    requires |c| <= 1 && a in c && b in c
    ensures a == b
  {
    assert |c.Keys - {a}| == 0;
    assert a == b || b in c.Keys - {a};
  }

  // ---- Recovery: what a bootstrap finds after another one died ----

  ghost predicate DistinctPoints<B>(chunks: seq<Chunk<B>>, pointId: string -> int) {
    AvoidsMarker(chunks, pointId) &&
    forall i, j :: 0 <= i < j < |chunks| ==> pointId(chunks[i].id) != pointId(chunks[j].id)
  }

  /** The first n chunks are stored, each under its own point, and the others are not. */
  ghost predicate HoldsFirst<B>(c: Collection<B>, job: Job<B>, pointId: string -> int, n: nat)
    requires n <= |job.chunks|
  {
    |c| == 1 + n && MARKER_ID in c && c[MARKER_ID] == Marker(job.fingerprint) &&
    (forall i :: 0 <= i < n ==>
      (pointId(job.chunks[i].id) in c &&
       c[pointId(job.chunks[i].id)] == ChunkPoint(job.chunks[i].id, job.fingerprint, job.chunks[i].body))) &&
    (forall i :: n <= i < |job.chunks| ==> pointId(job.chunks[i].id) !in c)
  }

  lemma OneMoreChunk<B>(c: Collection<B>, job: Job<B>, pointId: string -> int, n: nat)
    requires DistinctPoints(job.chunks, pointId) && n < |job.chunks| && HoldsFirst(c, job, pointId, n)
    ensures var chunk := job.chunks[n];
      HoldsFirst(c[pointId(chunk.id) := ChunkPoint(chunk.id, job.fingerprint, chunk.body)], job, pointId, n + 1)
  {
  }

  lemma MarkerHoldsNone<B>(job: Job<B>, pointId: string -> int)
    requires DistinctPoints(job.chunks, pointId)
    ensures HoldsFirst(map[MARKER_ID := Marker(job.fingerprint)], job, pointId, 0)
  {
  }

  lemma {:induction false} PutsStorePrefix<B>(store: Store<B>, job: Job<B>, pointId: string -> int, n: nat)
    requires DistinctPoints(job.chunks, pointId) && n <= |job.chunks|
    requires job.name in store && store[job.name] == map[MARKER_ID := Marker(job.fingerprint)]
    ensures var after := ApplyAll(store, job.name, Puts(job.chunks, job.fingerprint, pointId)[..n]);
            job.name in after && HoldsFirst(after[job.name], job, pointId, n)
  {
    hide HoldsFirst;
    hide DistinctPoints;
    var ws := Puts(job.chunks, job.fingerprint, pointId);
    if n == 0 {
      MarkerHoldsNone(job, pointId);
    } else {
      PutsStorePrefix(store, job, pointId, n - 1);
      assert ws[..n][..n - 1] == ws[..n - 1];
      OneMoreChunk(ApplyAll(store, job.name, ws[..n - 1])[job.name], job, pointId, n - 1);
    }
  }

  /** What a bootstrap of a collection that is not there does to the store. */
  lemma AfterBuild<B>(store: Store<B>, job: Job<B>, k: nat, pointId: string -> int)
    requires job.name !in store
    requires !(job.rebuild && job.name in PROTECTED_LEGACY_COLLECTIONS)
    ensures BootstrapPlan(store, job, pointId) == IngestPlan(false, None, job, pointId)
    ensures |IngestPlan(false, None, job, pointId).0| == 2 + |job.chunks|
    ensures After(store, job, k, pointId) ==
      ApplyAll(store, job.name, IngestPlan(false, None, job, pointId).0[..Min(k, 2 + |job.chunks|)])
  {
    hide ApplyAll;
  }

  /** A first bootstrap that dies after k writes: what its collection looks like. */
  lemma FirstBootstrap<B>(store: Store<B>, job: Job<B>, k: nat, pointId: string -> int)
    requires job.name !in store && DistinctPoints(job.chunks, pointId)
    requires !(job.rebuild && job.name in PROTECTED_LEGACY_COLLECTIONS)
    ensures var after := After(store, job, k, pointId);
            if k == 0 then after == store
            else if k == 1 then after == store[job.name := map[]]
            else job.name in after && HoldsFirst(after[job.name], job, pointId, Min(k - 2, |job.chunks|))
  {
    hide After;
    hide ApplyAll;
    hide Puts;
    hide HoldsFirst;
    hide DistinctPoints;
    AfterBuild(store, job, k, pointId);
    var n := Min(k, 2 + |job.chunks|);
    BuildPrefix(store, job, pointId, n);
    if n >= 2 {
      PutsStorePrefix(store[job.name := map[MARKER_ID := Marker(job.fingerprint)]], job, pointId, n - 2);
    }
  }

  /** A collection that holds only its marker is filled; one with chunks is left alone; an unmarked one raises. */
  lemma NextBootstrap<B>(store: Store<B>, job: Job<B>, pointId: string -> int)
    requires job.name in store && !(job.rebuild && job.name in PROTECTED_LEGACY_COLLECTIONS)
    ensures store[job.name] == map[] ==> BootstrapPlan(store, job, pointId) == ([], WrongMarker)
    ensures store[job.name] == map[MARKER_ID := Marker(job.fingerprint)] ==>
      BootstrapPlan(store, job, pointId) == (Puts(job.chunks, job.fingerprint, pointId), Bootstrapped)
    ensures |store[job.name]| > 1 && StoredFingerprint(store[job.name]) == Some(job.fingerprint) ==>
      BootstrapPlan(store, job, pointId) == ([], AlreadyReady)
  {
    hide Puts;
  }

  /** Nothing planned, nothing changed. */
  lemma NoWrites<B>(store: Store<B>, job: Job<B>, k: nat, pointId: string -> int)
    requires BootstrapPlan(store, job, pointId).0 == []
    ensures After(store, job, k, pointId) == store
  {
    hide BootstrapPlan;
  }

  /** What a bootstrap that fills a marked collection leaves when it dies after k writes. */
  lemma FillBootstrap<B>(store: Store<B>, job: Job<B>, k: nat, pointId: string -> int)
    requires job.name in store && store[job.name] == map[MARKER_ID := Marker(job.fingerprint)]
    requires DistinctPoints(job.chunks, pointId) && !(job.rebuild && job.name in PROTECTED_LEGACY_COLLECTIONS)
    ensures var after := After(store, job, k, pointId);
            job.name in after && HoldsFirst(after[job.name], job, pointId, Min(k, |job.chunks|))
  {
    hide BootstrapPlan;
    hide HoldsFirst;
    NextBootstrap(store, job, pointId);
    PutsStorePrefix(store, job, pointId, Min(k, |job.chunks|));
  }

  /** The collection is complete. */
  ghost predicate Complete<B>(store: Store<B>, job: Job<B>, pointId: string -> int) {
    job.name in store && HoldsFirst(store[job.name], job, pointId, |job.chunks|)
  }

  /** A bootstrap on a collection that holds the marker and the first m chunks: it completes the collection only when
      there are none or all of them. */
  lemma RetryAmongChunks<B>(crashed: Store<B>, job: Job<B>, m: nat, full: nat, pointId: string -> int)
    requires DistinctPoints(job.chunks, pointId) && !(job.rebuild && job.name in PROTECTED_LEGACY_COLLECTIONS)
    requires m <= |job.chunks| <= full && job.name in crashed && HoldsFirst(crashed[job.name], job, pointId, m)
    ensures Complete(After(crashed, job, full, pointId), job, pointId) <==> m == 0 || m == |job.chunks|
    ensures 0 < m ==> BootstrapPlan(crashed, job, pointId).1 == AlreadyReady && After(crashed, job, full, pointId) == crashed
  {
    hide BootstrapPlan;
    hide After;
    NextBootstrap(crashed, job, pointId);
    if m == 0 {
      OnlyMarker(crashed[job.name], job.fingerprint);
      FillBootstrap(crashed, job, full, pointId);
    } else {
      NoWrites(crashed, job, full, pointId);
    }
  }

  /** Running a bootstrap of a missing collection again after it died. */
  lemma RetryAfterBuild<B>(store: Store<B>, job: Job<B>, k: nat, full: nat, pointId: string -> int)
    requires job.name !in store && DistinctPoints(job.chunks, pointId) && full >= 2 + |job.chunks|
    requires !(job.rebuild && job.name in PROTECTED_LEGACY_COLLECTIONS)
    ensures var crashed := After(store, job, k, pointId);
            var retried := After(crashed, job, full, pointId);
            RetryEffect(crashed, retried, job, k, 2, pointId)
  {
    hide After;
    hide BootstrapPlan;
    hide HoldsFirst;
    var crashed := After(store, job, k, pointId);
    FirstBootstrap(store, job, k, pointId);
    if k == 0 {
      FirstBootstrap(store, job, full, pointId);
    } else if k == 1 {
      NextBootstrap(crashed, job, pointId);
      NoWrites(crashed, job, full, pointId);
      EmptyIsNotComplete(crashed, job, pointId);
    } else {
      RetryAmongChunks(crashed, job, Min(k - 2, |job.chunks|), full, pointId);
    }
  }

  lemma EmptyIsNotComplete<B>(store: Store<B>, job: Job<B>, pointId: string -> int)
    requires job.name in store && store[job.name] == map[]
    ensures !Complete(store, job, pointId)
  {
  }

  /** After a bootstrap whose first chunk is write `head` died after k writes, running it again completes the
      collection exactly when it had written no chunk or all of them and had not just created the collection;
      otherwise the retry raises, or takes the partial collection for ready, and changes nothing. */
  ghost predicate RetryEffect<B>(crashed: Store<B>, retried: Store<B>, job: Job<B>, k: nat, head: nat,
                                 pointId: string -> int)
  {
    && (Complete(retried, job, pointId) <==> k + 1 != head && (k <= head || k >= head + |job.chunks|))
    && (k + 1 == head ==> BootstrapPlan(crashed, job, pointId).1 == WrongMarker && retried == crashed)
    && (head < k < head + |job.chunks| ==> BootstrapPlan(crashed, job, pointId).1 == AlreadyReady && retried == crashed)
  }

  /** A rebuild that has dropped the collection goes on as a first bootstrap. */
  lemma AfterRebuild<B>(store: Store<B>, job: Job<B>, k: nat, pointId: string -> int)
    requires CollectionStatus(store, job.name, job.fingerprint) == Mismatch && job.rebuild
    requires job.name !in PROTECTED_LEGACY_COLLECTIONS
    ensures After(store, job, 0, pointId) == store
    ensures After(store, job, k + 1, pointId) == After(store - {job.name}, job, k, pointId)
    ensures |BootstrapPlan(store, job, pointId).0| == 3 + |job.chunks|
  {
    hide ApplyAll;
    var build := IngestPlan(false, None, job, pointId).0;
    assert BootstrapPlan(store, job, pointId).0 == [Drop] + build;
    AfterBuild(store - {job.name}, job, k, pointId);
    RebuildPrefix(store, job.name, build, Min(k, |build|));
    ApplyNothing(store, job.name);
  }

  lemma ApplyNothing<B>(store: Store<B>, name: string)
    ensures ApplyAll(store, name, []) == store
  {
  }

  /** Running a rebuild again after it died. */
  lemma RetryAfterRebuild<B>(store: Store<B>, job: Job<B>, k: nat, full: nat, pointId: string -> int)
    requires CollectionStatus(store, job.name, job.fingerprint) == Mismatch && job.rebuild
    requires job.name !in PROTECTED_LEGACY_COLLECTIONS
    requires DistinctPoints(job.chunks, pointId) && full >= 3 + |job.chunks|
    ensures var crashed := After(store, job, k, pointId);
            var retried := After(crashed, job, full, pointId);
            RetryEffect(crashed, retried, job, k, 3, pointId)
  {
    hide After;
    hide BootstrapPlan;
    hide HoldsFirst;
    var without := store - {job.name};
    if k == 0 {
      AfterRebuild(store, job, full - 1, pointId);
      FirstBootstrap(without, job, full - 1, pointId);
    } else {
      AfterRebuild(store, job, k - 1, pointId);
      RetryAfterBuild(without, job, k - 1, full, pointId);
    }
  }

  /** Running a bootstrap again after it filled a marked collection only in part. */
  lemma RetryAfterFill<B>(store: Store<B>, job: Job<B>, k: nat, full: nat, pointId: string -> int)
    requires job.name in store && store[job.name] == map[MARKER_ID := Marker(job.fingerprint)]
    requires DistinctPoints(job.chunks, pointId) && full >= |job.chunks|
    requires !(job.rebuild && job.name in PROTECTED_LEGACY_COLLECTIONS)
    ensures var crashed := After(store, job, k, pointId);
            var retried := After(crashed, job, full, pointId);
            RetryEffect(crashed, retried, job, k, 0, pointId)
  {
    hide After;
    hide BootstrapPlan;
    hide HoldsFirst;
    FillBootstrap(store, job, k, pointId);
    RetryAmongChunks(After(store, job, k, pointId), job, Min(k, |job.chunks|), full, pointId);
  }

  /** A bootstrap with something to do builds a missing collection, rebuilds a mismatched one, or fills a marked one. */
  lemma BootstrapKinds<B>(store: Store<B>, job: Job<B>, pointId: string -> int)
    requires BootstrapPlan(store, job, pointId).1 == Bootstrapped
    ensures !(job.rebuild && job.name in PROTECTED_LEGACY_COLLECTIONS)
    ensures match CollectionStatus(store, job.name, job.fingerprint)
      case Missing => |BootstrapPlan(store, job, pointId).0| == 2 + |job.chunks|
      case Mismatch => job.rebuild && |BootstrapPlan(store, job, pointId).0| == 3 + |job.chunks|
      case Empty =>
        && store[job.name] == map[MARKER_ID := Marker(job.fingerprint)]
        && |BootstrapPlan(store, job, pointId).0| == |job.chunks|
      case Ready => false
  {
    if CollectionStatus(store, job.name, job.fingerprint) == Empty {
      OnlyPointIsMarker(store[job.name], job.fingerprint);
    }
  }

  lemma OnlyPointIsMarker<B>(c: Collection<B>, fingerprint: string)
    requires |c| <= 1 && StoredFingerprint(c) == Some(fingerprint)
    ensures c == map[MARKER_ID := Marker(fingerprint)]
  {
    assert c.Keys != {};
    OnlyMarker(c, fingerprint);
  }

  /** The number of writes before the first chunk. */
  function HeadWrites<B>(store: Store<B>, job: Job<B>): nat {
    match CollectionStatus(store, job.name, job.fingerprint)
    case Missing => 2
    case Mismatch => 3
    case _ => 0
  }

  /** Running the same bootstrap again after one died at any point, be it a first one, a rebuild, or one that fills a
      collection that holds only its marker: whether the retry completes the collection, and what it does otherwise. */
  lemma RetryCompletesExactlyWhen<B>(store: Store<B>, job: Job<B>, k: nat, full: nat, pointId: string -> int)
    requires BootstrapPlan(store, job, pointId).1 == Bootstrapped && full >= |BootstrapPlan(store, job, pointId).0|
    requires DistinctPoints(job.chunks, pointId)
    ensures var crashed := After(store, job, k, pointId);
            var retried := After(crashed, job, full, pointId);
            RetryEffect(crashed, retried, job, k, HeadWrites(store, job), pointId)
  {
    hide After;
    hide BootstrapPlan;
    hide HoldsFirst;
    hide RetryEffect;
    BootstrapKinds(store, job, pointId);
    match CollectionStatus(store, job.name, job.fingerprint) {
      case Missing => RetryAfterBuild(store, job, k, full, pointId);
      case Mismatch => RetryAfterRebuild(store, job, k, full, pointId);
      case Empty => RetryAfterFill(store, job, k, full, pointId);
      case Ready =>
    }
  }

  lemma OnlyMarker<B>(c: Collection<B>, fingerprint: string)
    requires |c| == 1 && MARKER_ID in c && c[MARKER_ID] == Marker(fingerprint)
    ensures c == map[MARKER_ID := Marker(fingerprint)]
  {
    forall id | id in c ensures id == MARKER_ID {
      OnlyPoint(c, MARKER_ID, id);
    }
  }

  /** An all but empty collection without this fingerprint's marker is beyond repair by bootstrap: no later run on
      it, with or without the rebuild flag, changes it. */
  lemma {:induction false} StaleEmptyCollectionIsStuck<B>(store: Store<B>, runs: seq<Run<B>>, pointId: string -> int, name: string)
    requires name in store && |store[name]| <= 1
    requires forall i :: 0 <= i < |runs| && runs[i].job.name == name ==>
      StoredFingerprint(store[name]) != Some(runs[i].job.fingerprint)
    ensures name in AfterAll(store, runs, pointId) && AfterAll(store, runs, pointId)[name] == store[name]
  {
    if runs != [] {
      var last, before := runs[|runs| - 1], AfterAll(store, runs[..|runs| - 1], pointId);
      StaleEmptyCollectionIsStuck(store, runs[..|runs| - 1], pointId, name);
      if last.job.name != name {
        OthersAreKept(before, last, pointId, name);
      }
    }
  }

  // ---- Idempotent re-ingestion ----

  /** `ingest_config` run to its end. */
  function Ingested<B>(store: Store<B>, job: Job<B>, pointId: string -> int): Store<B> {
    ApplyAll(store, job.name, IngestPlan(job.name in store,
      if job.name in store then StoredFingerprint(store[job.name]) else None, job, pointId).0)
  }

  function LastPut<B>(chunks: seq<Chunk<B>>, fingerprint: string, pointId: string -> int, n: nat, id: int): Option<Point<B>>
    requires n <= |chunks|
  {
    if n == 0 then None
    else if pointId(chunks[n - 1].id) == id then Some(ChunkPoint(chunks[n - 1].id, fingerprint, chunks[n - 1].body))
    else LastPut(chunks, fingerprint, pointId, n - 1, id)
  }

  lemma {:induction false} PutsLookup<B>(store: Store<B>, name: string, chunks: seq<Chunk<B>>, fingerprint: string,
                                         pointId: string -> int, n: nat)
    requires n <= |chunks| && name in store
    ensures var after := ApplyAll(store, name, Puts(chunks, fingerprint, pointId)[..n]);
            name in after && after - {name} == store - {name} &&
            forall id :: var put := LastPut(chunks, fingerprint, pointId, n, id);
              (id in after[name] <==> put.Some? || id in store[name]) &&
              (id in after[name] ==> after[name][id] == if put.Some? then put.value else store[name][id])
  {
    var ws := Puts(chunks, fingerprint, pointId);
    if n > 0 {
      PutsLookup(store, name, chunks, fingerprint, pointId, n - 1);
      assert ws[..n][..n - 1] == ws[..n - 1];
    }
  }

  lemma PutTwiceIsPutOnce<B>(store: Store<B>, name: string, chunks: seq<Chunk<B>>, fingerprint: string, pointId: string -> int)
    requires name in store
    ensures var once := ApplyAll(store, name, Puts(chunks, fingerprint, pointId));
            name in once && ApplyAll(once, name, Puts(chunks, fingerprint, pointId)) == once
  {
    var ws := Puts(chunks, fingerprint, pointId);
    assert ws[..|chunks|] == ws;
    var once := ApplyAll(store, name, ws);
    PutsLookup(store, name, chunks, fingerprint, pointId, |chunks|);
    PutsLookup(once, name, chunks, fingerprint, pointId, |chunks|);
    var twice := ApplyAll(once, name, ws);
    forall id
      ensures id in twice[name] <==> id in once[name]
      ensures id in once[name] ==> twice[name][id] == once[name][id]
    {
      var put := LastPut(chunks, fingerprint, pointId, |chunks|, id);
    }
    assert twice[name] == once[name];
    assert twice == (twice - {name})[name := twice[name]] && once == (once - {name})[name := once[name]];
  }

  /** Ingesting the same corpus and configuration a second time changes nothing. */
  lemma IngestTwiceIsIngestOnce<B>(store: Store<B>, job: Job<B>, pointId: string -> int)
    requires AvoidsMarker(job.chunks, pointId)
    ensures Ingested(Ingested(store, job, pointId), job, pointId) == Ingested(store, job, pointId)
  {
    var once := Ingested(store, job, pointId);
    var puts := Puts(job.chunks, job.fingerprint, pointId);
    assert puts[..|job.chunks|] == puts;
    if job.name !in store {
      var ws := IngestPlan(false, None, job, pointId).0;
      var marked := store[job.name := map[MARKER_ID := Marker(job.fingerprint)]];
      assert ws[..|ws|] == ws;
      BuildPrefix(store, job, pointId, |ws|);
      PutTwiceIsPutOnce(marked, job.name, job.chunks, job.fingerprint, pointId);
      PutsOnlyWriteTheirIds(marked, job.name, job.chunks, job.fingerprint, pointId, |job.chunks|, MARKER_ID);
    } else if StoredFingerprint(store[job.name]) == Some(job.fingerprint) {
      PutTwiceIsPutOnce(store, job.name, job.chunks, job.fingerprint, pointId);
      PutsOnlyWriteTheirIds(store, job.name, job.chunks, job.fingerprint, pointId, |job.chunks|, MARKER_ID);
    }
  }

  /** A fresh collection ends up with the marker and one point per chunk, and nothing else. */
  lemma FreshIngestHoldsEveryChunk<B>(store: Store<B>, job: Job<B>, pointId: string -> int)
    requires job.name !in store && DistinctPoints(job.chunks, pointId)
    ensures job.name in Ingested(store, job, pointId)
    ensures HoldsFirst(Ingested(store, job, pointId)[job.name], job, pointId, |job.chunks|)
  {
    var ws, n := IngestPlan(false, None, job, pointId).0, |job.chunks|;
    assert ws[..n + 2] == ws;
    BuildPrefix(store, job, pointId, n + 2);
    PutsStorePrefix(store[job.name := map[MARKER_ID := Marker(job.fingerprint)]], job, pointId, n);
  }
}
