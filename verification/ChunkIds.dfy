/** Deterministic identifiers (rag/ids.py) and the chunk list a corpus produces (rag/ingest.py): which inputs can
    share an identifier, given that the hash itself never collides on the strings it is applied to. */
module ChunkIds {
  import opened Common
  import opened Ingestion

  // ---- Keys ----

  function Digit(d: nat): char
    requires d < 10
  {
    "0123456789"[d]
  }

  function Decimal(n: nat): string {
    if n < 10 then [Digit(n)] else Decimal(n / 10) + [Digit(n % 10)]
  }

  /** The string hashed into a chunk id: `source:config:index`. */
  function RawKey(sourceId: string, config: string, index: nat): string {
    sourceId + ":" + (config + ":" + Decimal(index))
  }

  lemma DigitInjective(a: nat, b: nat)
    requires a < 10 && b < 10
    ensures Digit(a) == Digit(b) ==> a == b
    ensures Digit(a) != ':'
  {
  }

  lemma {:induction false} DecimalInjective(m: nat, n: nat)
    requires Decimal(m) == Decimal(n)
    ensures m == n
  {
    var a, b := Decimal(m), Decimal(n);
    DigitInjective(m % 10, n % 10);
    assert a[|a| - 1] == Digit(m % 10) && b[|b| - 1] == Digit(n % 10);
    DecimalNonEmpty(m);
    DecimalNonEmpty(n);
    if m >= 10 && n >= 10 {
      assert a[..|a| - 1] == Decimal(m / 10) && b[..|b| - 1] == Decimal(n / 10);
      DecimalInjective(m / 10, n / 10);
    }
  }

  lemma {:induction false} DecimalNonEmpty(n: nat)
    ensures |Decimal(n)| >= 1 && ':' !in Decimal(n)
    ensures n >= 10 ==> |Decimal(n)| >= 2
  {
    DigitInjective(n % 10, 0);
    if n >= 10 {
      DecimalNonEmpty(n / 10);
    }
  }

  /** A string is split in one way at the last occurrence of a separator. */
  lemma LastSeparator(a: string, x: string, b: string, y: string, c: char)
    requires a + [c] + x == b + [c] + y && c !in x && c !in y
    ensures a == b && x == y
  {
    var left, right := a + [c] + x, b + [c] + y;
    assert left[|a|] == c && right[|b|] == c;
    assert |a| == |b|;
    assert left[..|a|] == a && right[..|b|] == b;
    assert left[|a| + 1..] == x && right[|b| + 1..] == y;
  }

  /** Source ids may contain colons; configuration names and indexes do not, and that is enough. */
  lemma RawKeyInjective(s1: string, c1: string, i1: nat, s2: string, c2: string, i2: nat)
    requires ':' !in c1 && ':' !in c2
    requires RawKey(s1, c1, i1) == RawKey(s2, c2, i2)
    ensures s1 == s2 && c1 == c2 && i1 == i2
  {
    DecimalNonEmpty(i1);
    DecimalNonEmpty(i2);
    var left, right := s1 + ":" + c1, s2 + ":" + c2;
    assert RawKey(s1, c1, i1) == left + [':'] + Decimal(i1);
    assert RawKey(s2, c2, i2) == right + [':'] + Decimal(i2);
    LastSeparator(left, Decimal(i1), right, Decimal(i2), ':');
    LastSeparator(s1, c1, s2, c2, ':');
    DecimalInjective(i1, i2);
  }

  // ---- The chunks of a corpus ----

  datatype Document<B> = Document(sourceId: string, language: string, checksum: string, bodies: seq<B>)

  /** The keys of one document's chunks, in chunk order. */
  function DocumentKeys<B>(doc: Document<B>, config: string): seq<string> {
    seq(|doc.bodies|, i requires 0 <= i < |doc.bodies| => RawKey(doc.sourceId, config, i))
  }

  function CorpusKeys<B>(docs: seq<Document<B>>, config: string): seq<string> {
    if docs == [] then [] else CorpusKeys(docs[..|docs| - 1], config) + DocumentKeys(docs[|docs| - 1], config)
  }

  function DocumentChunks<B>(doc: Document<B>, config: string, chunkId: string -> string): seq<Chunk<B>> {
    seq(|doc.bodies|, i requires 0 <= i < |doc.bodies| => Chunk(chunkId(RawKey(doc.sourceId, config, i)), doc.bodies[i]))
  }

  function CorpusChunks<B>(docs: seq<Document<B>>, config: string, chunkId: string -> string): seq<Chunk<B>> {
    if docs == [] then []
    else CorpusChunks(docs[..|docs| - 1], config, chunkId) + DocumentChunks(docs[|docs| - 1], config, chunkId)
  }

  /** The nested loops of `ingest_config`. */
  method CollectChunks<B>(docs: seq<Document<B>>, config: string, chunkId: string -> string) returns (chunks: seq<Chunk<B>>)
    ensures chunks == CorpusChunks(docs, config, chunkId)
  {
    chunks := [];
    for d := 0 to |docs|
      invariant chunks == CorpusChunks(docs[..d], config, chunkId)
    {
      var doc := docs[d];
      ghost var before, own := chunks, DocumentChunks(doc, config, chunkId);
      for index := 0 to |doc.bodies|
        invariant chunks == before + own[..index]
      {
        chunks := chunks + [Chunk(chunkId(RawKey(doc.sourceId, config, index)), doc.bodies[index])];
      }
      assert docs[..d + 1][..d] == docs[..d] && own[..|doc.bodies|] == own;
    }
    assert docs[..|docs|] == docs;
  }

  lemma {:induction false} ChunksCarryKeys<B>(docs: seq<Document<B>>, config: string, chunkId: string -> string)
    ensures |CorpusChunks(docs, config, chunkId)| == |CorpusKeys(docs, config)|
    ensures forall p :: 0 <= p < |CorpusKeys(docs, config)| ==>
      CorpusChunks(docs, config, chunkId)[p].id == chunkId(CorpusKeys(docs, config)[p])
  {
    if docs != [] {
      ChunksCarryKeys(docs[..|docs| - 1], config, chunkId);
    }
  }

  lemma {:induction false} KeyOrigin<B>(docs: seq<Document<B>>, config: string, p: nat) returns (d: nat, i: nat)
    requires p < |CorpusKeys(docs, config)|
    ensures d < |docs| && i < |docs[d].bodies| && CorpusKeys(docs, config)[p] == RawKey(docs[d].sourceId, config, i)
    ensures p == KeyPosition(docs, d) + i
  {
    var front := docs[..|docs| - 1];
    KeyPositionEnd(front, config);
    if p < |CorpusKeys(front, config)| {
      d, i := KeyOrigin(front, config, p);
      KeyPositionFront(docs, |docs| - 1, d);
    } else {
      d, i := |docs| - 1, p - |CorpusKeys(front, config)|;
      KeyPositionFront(docs, |docs| - 1, |docs| - 1);
    }
  }

  /** Where document d's chunks start in the corpus list. */
  function KeyPosition<B>(docs: seq<Document<B>>, d: nat): nat
    requires d <= |docs|
  {
    if d == 0 then 0 else KeyPosition(docs, d - 1) + |docs[d - 1].bodies|
  }

  lemma {:induction false} KeyPositionFront<B>(docs: seq<Document<B>>, n: nat, d: nat)
    requires d <= n <= |docs|
    ensures KeyPosition(docs[..n], d) == KeyPosition(docs, d)
  {
    if d > 0 {
      KeyPositionFront(docs, n, d - 1);
    }
  }

  lemma {:induction false} KeyPositionEnd<B>(docs: seq<Document<B>>, config: string)
    ensures |CorpusKeys(docs, config)| == KeyPosition(docs, |docs|)
  {
    if docs != [] {
      KeyPositionEnd(docs[..|docs| - 1], config);
      KeyPositionFront(docs, |docs| - 1, |docs| - 1);
    }
  }

  lemma {:induction false} KeyAt<B>(docs: seq<Document<B>>, config: string, d: nat, i: nat)
    requires d < |docs| && i < |docs[d].bodies|
    ensures KeyPosition(docs, d) + i < |CorpusKeys(docs, config)|
    ensures CorpusKeys(docs, config)[KeyPosition(docs, d) + i] == RawKey(docs[d].sourceId, config, i)
  {
    hide RawKey;
    var n := |docs| - 1;
    KeyPositionEnd(docs[..n], config);
    KeyPositionFront(docs, n, d);
    if d < n {
      KeyAt(docs[..n], config, d, i);
    }
  }

  lemma {:induction false} KeyPositionMonotone<B>(docs: seq<Document<B>>, d: nat, e: nat)
    requires d < e <= |docs|
    ensures KeyPosition(docs, d) + |docs[d].bodies| <= KeyPosition(docs, e)
  {
    if d + 1 < e {
      KeyPositionMonotone(docs, d, e - 1);
    }
  }

  ghost predicate NoRepeats(keys: seq<string>) {
    forall p, q :: 0 <= p < q < |keys| ==> keys[p] != keys[q]
  }

  /** No two documents that have chunks share a source id. */
  ghost predicate DistinctSources<B>(docs: seq<Document<B>>) {
    forall d, e :: 0 <= d < e < |docs| && docs[d].bodies != [] && docs[e].bodies != [] ==> docs[d].sourceId != docs[e].sourceId
  }

  /** Nothing checks that source ids are unique; chunk keys are unique exactly when they are. */
  lemma KeysDistinctIffSourcesAre<B>(docs: seq<Document<B>>, config: string)
    requires ':' !in config
    ensures NoRepeats(CorpusKeys(docs, config)) <==> DistinctSources(docs)
  {
    var keys := CorpusKeys(docs, config);
    if DistinctSources(docs) {
      forall p, q | 0 <= p < q < |keys| ensures keys[p] != keys[q] {
        var d, i := KeyOrigin(docs, config, p);
        var e, j := KeyOrigin(docs, config, q);
        if keys[p] == keys[q] {
          RawKeyInjective(docs[d].sourceId, config, i, docs[e].sourceId, config, j);
        }
      }
    } else {
      var d, e :| 0 <= d < e < |docs| && docs[d].bodies != [] && docs[e].bodies != [] && docs[d].sourceId == docs[e].sourceId;
      KeyAt(docs, config, d, 0);
      KeyAt(docs, config, e, 0);
      KeyPositionMonotone(docs, d, e);
    }
  }

  /** Hashing is collision free on the keys at hand and never yields the marker's id. */
  ghost predicate CollisionFree(keys: seq<string>, point: string -> int) {
    (forall p, q :: 0 <= p < |keys| && 0 <= q < |keys| && point(keys[p]) == point(keys[q]) ==> keys[p] == keys[q]) &&
    (forall p :: 0 <= p < |keys| ==> point(keys[p]) != MARKER_ID)
  }

  /** Ingesting a corpus into a fresh collection stores exactly the marker and one point per chunk, and ingesting
      the same corpus and configuration again changes nothing. */
  lemma ReingestionIsIdempotent<B>(store: Store<B>, job: Job<B>, docs: seq<Document<B>>, config: string,
                                   chunkId: string -> string, pointId: string -> int)
    requires ':' !in config && DistinctSources(docs) && job.name !in store
    requires CollisionFree(CorpusKeys(docs, config), key => pointId(chunkId(key)))
    requires job.chunks == CorpusChunks(docs, config, chunkId)
    ensures var once := Ingested(store, job, pointId);
            job.name in once && |once[job.name]| == 1 + |job.chunks| && Ingested(once, job, pointId) == once
  {
    var keys := CorpusKeys(docs, config);
    var point := (key: string) => pointId(chunkId(key));
    KeysDistinctIffSourcesAre(docs, config);
    ChunksCarryKeys(docs, config, chunkId);
    forall p, q | 0 <= p < q < |job.chunks| ensures pointId(job.chunks[p].id) != pointId(job.chunks[q].id) {
      assert point(keys[p]) == pointId(job.chunks[p].id) && point(keys[q]) == pointId(job.chunks[q].id);
    }
    forall p | 0 <= p < |job.chunks| ensures pointId(job.chunks[p].id) != MARKER_ID {
      assert point(keys[p]) == pointId(job.chunks[p].id);
    }
    FreshIngestHoldsEveryChunk(store, job, pointId);
    IngestTwiceIsIngestOnce(store, job, pointId);
  }

  // ---- Fingerprints ----

  /** `_corpus_identity`: for each source the language and checksum of the last document that has it. */
  function Identity<B>(docs: seq<Document<B>>): map<string, string> {
    if docs == [] then map[]
    else var last := docs[|docs| - 1];
      Identity(docs[..|docs| - 1])[last.sourceId := last.language + ['|'] + last.checksum]
  }

  function Versions<B>(docs: seq<Document<B>>): map<string, (string, string)> {
    if docs == [] then map[]
    else var last := docs[|docs| - 1]; Versions(docs[..|docs| - 1])[last.sourceId := (last.language, last.checksum)]
  }

  function Fingerprint<B, C>(docs: seq<Document<B>>, config: C, hash: string -> string,
                             corpusJson: map<string, string> -> string, configJson: C -> string): string {
    hash(hash(corpusJson(Identity(docs))) + [':'] + hash(configJson(config)))
  }

  ghost predicate HexChecksums<B>(docs: seq<Document<B>>) {
    forall d :: 0 <= d < |docs| ==> '|' !in docs[d].checksum
  }

  lemma {:induction false} IdentityOfVersions<B>(docs: seq<Document<B>>)
    requires HexChecksums(docs)
    ensures Identity(docs).Keys == Versions(docs).Keys
    ensures forall s <- Versions(docs) ::
      (Identity(docs)[s] == Versions(docs)[s].0 + ['|'] + Versions(docs)[s].1 && '|' !in Versions(docs)[s].1)
  {
    if docs != [] {
      IdentityOfVersions(docs[..|docs| - 1]);
    }
  }

  lemma IdentityDeterminesVersions<B>(docs1: seq<Document<B>>, docs2: seq<Document<B>>)
    requires HexChecksums(docs1) && HexChecksums(docs2)
    ensures Identity(docs1) == Identity(docs2) <==> Versions(docs1) == Versions(docs2)
  {
    IdentityOfVersions(docs1);
    IdentityOfVersions(docs2);
    var v1, v2 := Versions(docs1), Versions(docs2);
    if Identity(docs1) == Identity(docs2) {
      forall s | s in v1 ensures v1[s] == v2[s] {
        LastSeparator(v1[s].0, v1[s].1, v2[s].0, v2[s].1, '|');
      }
      assert v1 == v2;
    } else if v1 == v2 {
      assert forall s <- Identity(docs1) :: Identity(docs1)[s] == Identity(docs2)[s];
    }
  }

  /** Two ingestions carry the same fingerprint exactly when they have the same configuration and the same language
      and checksum for every source, whatever the order of the documents. */
  lemma FingerprintIdentifiesCorpusAndConfiguration<B, C>(
    docs1: seq<Document<B>>, config1: C, docs2: seq<Document<B>>, config2: C,
    hash: string -> string, corpusJson: map<string, string> -> string, configJson: C -> string)
    requires HexChecksums(docs1) && HexChecksums(docs2)
    requires forall x, y :: hash(x) == hash(y) ==> x == y
    requires forall x :: ':' !in hash(x)
    requires forall x, y :: corpusJson(x) == corpusJson(y) ==> x == y
    requires configJson(config1) == configJson(config2) ==> config1 == config2
    ensures Fingerprint(docs1, config1, hash, corpusJson, configJson) == Fingerprint(docs2, config2, hash, corpusJson, configJson)
            <==> config1 == config2 && Versions(docs1) == Versions(docs2)
  {
    hide Identity;
    hide Versions;
    hide HexChecksums;
    IdentityDeterminesVersions(docs1, docs2);
    var a1, a2 := hash(corpusJson(Identity(docs1))), hash(corpusJson(Identity(docs2)));
    var b1, b2 := hash(configJson(config1)), hash(configJson(config2));
    if Fingerprint(docs1, config1, hash, corpusJson, configJson) == Fingerprint(docs2, config2, hash, corpusJson, configJson) {
      assert a1 + [':'] + b1 == a2 + [':'] + b2;
      LastSeparator(a1, b1, a2, b2, ':');
    }
  }
}
