// The upload stage: embedded chunks become (id, embedding, metadata)
// vectors, which are sent to the vector index in fixed-size batches.

module Upload {
  import opened Builtins
  import Chunking

  /** An embedding is passed through untouched; its values are not inspected. */
  type Embedding = seq<real>

  /** A chunk after the embedding stage has added its vector. */
  datatype EmbeddedChunk = EmbeddedChunk(text: string, metadata: map<string, Value>, embedding: Embedding)

  /** The metadata stored with a vector. */
  datatype VectorMetadata = VectorMetadata(
    text: string,
    arxivId: Value,
    filename: Value,
    title: string,
    chunkIndex: Value,
    numPages: Value)

  datatype Vector = Vector(id: string, embedding: Embedding, metadata: VectorMetadata)

  /** Why preparing the chunk at `position` raised: a metadata key it reads is
      missing (KeyError), or the title cannot be sliced (TypeError). */
  datatype PrepareError = MissingKey(position: nat, key: string) | TitleNotText(position: nat)

  const MaxTextLength: nat := 1000
  const MaxTitleLength: nat := 200
  const DefaultBatchSize: int := 100

  /** How an f-string prints a metadata value. */
  function FormatValue(v: Value): string
  {
    match v
    case Str(s) => s
    case Int(i) => IntToString(i)
  }

  /** The id of the vector at `position`: f"{arxiv_id}_chunk_{position}". */
  function IdOf(arxivId: Value, position: nat): string
  {
    FormatValue(arxivId) + "_chunk_" + Decimal(position)
  }

  /** The digits after the last "_chunk_" are the position. */
  lemma IdPosition(arxivId: Value, position: nat)
    ensures TrailingDigits(IdOf(arxivId, position)) == Decimal(position)
  {
    var p := FormatValue(arxivId) + "_chunk_";
    assert IdOf(arxivId, position) == p + Decimal(position);
    TrailingDigitsAfter(p, Decimal(position));
  }

  /** Vectors at different positions get different ids, whatever their
      papers are. */
  lemma IdsDistinct(a: Value, i: nat, b: Value, j: nat)
    requires i != j
    ensures IdOf(a, i) != IdOf(b, j)
  {
    IdPosition(a, i);
    IdPosition(b, j);
    if IdOf(a, i) == IdOf(b, j) {
      DecimalInjective(i, j);
    }
  }

  /** The vector built for the chunk at `position`, or the exception the
      dictionary lookups raise, checked in the order the source evaluates
      them. */
  function PrepareVector(c: EmbeddedChunk, position: nat): (r: Result<Vector, PrepareError>)
    ensures r.Err? ==> r.error.position == position
  {
    var m := c.metadata;
    if "arxiv_id" !in m then Err(MissingKey(position, "arxiv_id"))
    else if "filename" !in m then Err(MissingKey(position, "filename"))
    else if "title" !in m then Err(MissingKey(position, "title"))
    else if !m["title"].Str? then Err(TitleNotText(position))
    else if "chunk_index" !in m then Err(MissingKey(position, "chunk_index"))
    else if "num_pages" !in m then Err(MissingKey(position, "num_pages"))
    else
      Ok(Vector(IdOf(m["arxiv_id"], position),
                c.embedding,
                VectorMetadata(Truncate(c.text, MaxTextLength),
                               m["arxiv_id"],
                               m["filename"],
                               Truncate(m["title"].s, MaxTitleLength),
                               m["chunk_index"],
                               m["num_pages"])))
  }

  const RequiredKeys: set<string> := {"arxiv_id", "filename", "title", "chunk_index", "num_pages"}

  /** A chunk can be prepared exactly when its metadata has the five keys
      and a text title; the vector then keeps the embedding, copies four
      fields unchanged and cuts the text to 1000 and the title to 200
      characters. */
  lemma PrepareVectorSpec(c: EmbeddedChunk, position: nat)
    ensures var r := PrepareVector(c, position);
            r.Ok? <==> RequiredKeys <= c.metadata.Keys && c.metadata["title"].Str?
    ensures var r := PrepareVector(c, position);
            r.Ok? ==>
              var m := c.metadata;
              var md := r.value.metadata;
              && r.value.id == IdOf(m["arxiv_id"], position)
              && r.value.embedding == c.embedding
              && |md.text| == Min(|c.text|, MaxTextLength) && md.text <= c.text
              && |md.title| == Min(|m["title"].s|, MaxTitleLength) && md.title <= m["title"].s
              && md.arxivId == m["arxiv_id"] && md.filename == m["filename"]
              && md.chunkIndex == m["chunk_index"] && md.numPages == m["num_pages"]
  {
  }

  predicate AllPrepared(chunks: seq<EmbeddedChunk>)
  {
    forall i :: 0 <= i < |chunks| ==> PrepareVector(chunks[i], i).Ok?
  }

  predicate DistinctIds(vs: seq<Vector>)
  {
    forall i, j :: 0 <= i < j < |vs| ==> vs[i].id != vs[j].id
  }

  /** The vectors prepared from chunks at different positions have
      different ids. */
  lemma PreparedIdsDistinct(chunks: seq<EmbeddedChunk>, vs: seq<Vector>)
    requires |vs| == |chunks|
    requires forall i :: 0 <= i < |chunks| ==> PrepareVector(chunks[i], i) == Ok(vs[i])
    ensures DistinctIds(vs)
  {
    forall i, j | 0 <= i < j < |vs| ensures vs[i].id != vs[j].id {
      assert PrepareVector(chunks[i], i) == Ok(vs[i]);
      assert PrepareVector(chunks[j], j) == Ok(vs[j]);
      IdsDistinct(chunks[i].metadata["arxiv_id"], i, chunks[j].metadata["arxiv_id"], j);
    }
  }

  /** PineconeUploader.prepare_vectors: one vector per chunk, in order, or
      the exception raised by the first chunk that cannot be prepared. */
  method PrepareVectors(chunks: seq<EmbeddedChunk>) returns (r: Result<seq<Vector>, PrepareError>)
    ensures r.Ok? <==> AllPrepared(chunks)
    ensures r.Ok? ==> |r.value| == |chunks|
                      && forall i :: 0 <= i < |chunks| ==> PrepareVector(chunks[i], i) == Ok(r.value[i])
    ensures r.Ok? ==> DistinctIds(r.value)
    ensures r.Err? ==> exists p :: 0 <= p < |chunks| && PrepareVector(chunks[p], p) == Err(r.error)
                                   && forall j :: 0 <= j < p ==> PrepareVector(chunks[j], j).Ok?
  {
    var vectors: seq<Vector> := [];
    var i := 0;
    while i < |chunks|
      invariant 0 <= i <= |chunks| && |vectors| == i
      invariant forall j :: 0 <= j < i ==> PrepareVector(chunks[j], j) == Ok(vectors[j])
    {
      var v := PrepareVector(chunks[i], i);
      if v.Err? {
        return Err(v.error);
      }
      vectors := vectors + [v.value];
      i := i + 1;
    }
    PreparedIdsDistinct(chunks, vectors);
    return Ok(vectors);
  }

  // ---------------------------------------------------------------------------
  // Batches

  /** vectors[i : i + size] for i in range(0, len(vectors), size). */
  function Batches<T>(vs: seq<T>, size: nat): seq<seq<T>>
    requires size > 0
  {
    if vs == [] then [] else [vs[..Min(size, |vs|)]] + Batches(vs[Min(size, |vs|)..], size)
  }

  function Flatten<T>(bs: seq<seq<T>>): seq<T>
  {
    if bs == [] then [] else bs[0] + Flatten(bs[1..])
  }

  /** The batches, in order, put back together are the vectors. */
  lemma {:induction false} BatchesFlatten<T>(vs: seq<T>, size: nat)
    requires size > 0
    ensures Flatten(Batches(vs, size)) == vs
  {
    if vs != [] {
      var k := Min(size, |vs|);
      BatchesFlatten(vs[k..], size);
      assert Batches(vs, size)[1..] == Batches(vs[k..], size);
      assert vs == vs[..k] + vs[k..];
    }
  }

  /** Every batch holds at least one and at most `size` vectors, and all but
      the last hold exactly `size`. */
  lemma {:induction false} BatchesSizes<T>(vs: seq<T>, size: nat)
    requires size > 0
    ensures forall k :: 0 <= k < |Batches(vs, size)| ==>
              0 < |Batches(vs, size)[k]| <= size
              && (k < |Batches(vs, size)| - 1 ==> |Batches(vs, size)[k]| == size)
  {
    if vs != [] {
      var rest := Batches(vs[Min(size, |vs|)..], size);
      BatchesSizes(vs[Min(size, |vs|)..], size);
      var bs := Batches(vs, size);
      assert bs == [vs[..Min(size, |vs|)]] + rest;
      if |vs| > size {
        assert vs[size..] != [];
        assert |bs[0]| == size;
      } else {
        assert vs[|vs|..] == [];
        assert |bs| == 1;
      }
      forall k | 0 <= k < |bs|
        ensures 0 < |bs[k]| <= size && (k < |bs| - 1 ==> |bs[k]| == size)
      {
        if k > 0 {
          assert bs[k] == rest[k - 1];
        }
      }
    }
  }

  /** There are ceil(n / size) batches; no vectors, no batches. */
  lemma {:induction false} BatchesCount<T>(vs: seq<T>, size: nat)
    requires size > 0
    ensures |Batches(vs, size)| == (|vs| + size - 1) / size
    decreases |vs|
  {
    if vs == [] {
      DivModUnique(size - 1, size, 0, size - 1);
    } else if |vs| <= size {
      assert Batches(vs[|vs|..], size) == [];
      DivModUnique(|vs| + size - 1, size, 1, |vs| - 1);
    } else {
      BatchesCount(vs[size..], size);
      DivModAddStep(|vs| - 1, size);
    }
  }

  /** One pass of the upload loop: the batch at `i` comes first, then the
      batches of what follows it. */
  lemma BatchesStep<T>(vs: seq<T>, size: nat, i: nat)
    requires size > 0 && i < |vs|
    ensures Batches(vs[i..], size)
            == [vs[i..Min(i + size, |vs|)]] + Batches(vs[Min(i + size, |vs|)..], size)
  {
    var k := Min(size, |vs| - i);
    assert vs[i..][..k] == vs[i..Min(i + size, |vs|)];
    assert vs[i..][k..] == vs[Min(i + size, |vs|)..];
  }

  /** What one upsert of the batch at `i` does to the upload loop's
      invariant: it moves the batch from what is still to be sent to what
      was sent, and `i` past it. */
  lemma UploadStep(vs: seq<Vector>, size: nat, i: nat, log0: seq<seq<Vector>>, log: seq<seq<Vector>>,
                   m0: map<string, Vector>, m: map<string, Vector>)
    requires size > 0 && i < |vs|
    requires log0 + Batches(vs, size) == log + Batches(vs[i..], size)
    requires m == Store(m0, vs[..i])
    ensures var next := Min(i + size, |vs|);
            && log0 + Batches(vs, size) == (log + [vs[i..next]]) + Batches(vs[next..], size)
            && Store(m, vs[i..next]) == Store(m0, vs[..next])
  {
    var next := Min(i + size, |vs|);
    var batch := vs[i..next];
    BatchesStep(vs, size, i);
    assert log + ([batch] + Batches(vs[next..], size)) == (log + [batch]) + Batches(vs[next..], size);
    assert vs[..next] == vs[..i] + batch;
    StoreAppend(m0, vs[..i], batch);
  }

  // ---------------------------------------------------------------------------
  // The vector index

  /** The index after upserting `vs` into `m`: each vector is stored under
      its id, a later one replacing an earlier one with the same id. */
  function Store(m: map<string, Vector>, vs: seq<Vector>): map<string, Vector>
  {
    if vs == [] then m else Store(m, vs[..|vs| - 1])[vs[|vs| - 1].id := vs[|vs| - 1]]
  }

  lemma {:induction false} StoreAppend(m: map<string, Vector>, a: seq<Vector>, b: seq<Vector>)
    ensures Store(m, a + b) == Store(Store(m, a), b)
    decreases |b|
  {
    if b == [] {
      assert a + b == a;
    } else {
      assert (a + b)[..|a + b| - 1] == a + b[..|b| - 1];
      StoreAppend(m, a, b[..|b| - 1]);
    }
  }

  /** Upserting overrides what was stored before: the result is the old
      index updated by what the vectors alone would store. */
  lemma {:induction false} StoreOverrides(m: map<string, Vector>, vs: seq<Vector>)
    ensures Store(m, vs) == m + Store(map[], vs)
    decreases |vs|
  {
    if vs != [] {
      StoreOverrides(m, vs[..|vs| - 1]);
      var v := vs[|vs| - 1];
      var s := Store(map[], vs[..|vs| - 1]);
      assert (m + s)[v.id := v] == m + s[v.id := v];
    }
  }

  /** Uploading the same vectors again changes nothing. */
  lemma StoreIdempotent(m: map<string, Vector>, vs: seq<Vector>)
    ensures Store(Store(m, vs), vs) == Store(m, vs)
  {
    StoreOverrides(m, vs);
    StoreOverrides(Store(m, vs), vs);
    var s := Store(map[], vs);
    assert (m + s) + s == m + s;
  }

  /** Vectors with distinct ids can all be read back under their ids, and
      nothing else is added. */
  lemma {:induction false} StoreDistinct(m: map<string, Vector>, vs: seq<Vector>)
    requires DistinctIds(vs)
    ensures forall k :: 0 <= k < |vs| ==> vs[k].id in Store(m, vs) && Store(m, vs)[vs[k].id] == vs[k]
    ensures forall x :: x in Store(m, vs) <==> x in m || exists k :: 0 <= k < |vs| && vs[k].id == x
    decreases |vs|
  {
    if vs != [] {
      var init := vs[..|vs| - 1];
      StoreDistinct(m, init);
      forall x ensures x in Store(m, vs) <==> x in m || exists k :: 0 <= k < |vs| && vs[k].id == x {
        if exists k :: 0 <= k < |init| && init[k].id == x {
          var k :| 0 <= k < |init| && init[k].id == x;
          assert vs[k].id == x;
        }
        if exists k :: 0 <= k < |vs| && vs[k].id == x {
          var k :| 0 <= k < |vs| && vs[k].id == x;
          if k < |init| {
            assert init[k].id == x;
          }
        }
      }
    }
  }

  /** The remote index: `log` records every upsert call in order, and
      `entries` is what the index then holds. */
  class VectorIndex {
    ghost var log: seq<seq<Vector>>
    var entries: map<string, Vector>

    constructor()
      ensures log == [] && entries == map[]
    {
      log := [];
      entries := map[];
    }

    method Upsert(batch: seq<Vector>)
      modifies this
      ensures log == old(log) + [batch]
      ensures entries == Store(old(entries), batch)
    {
      log := log + [batch];
      entries := Store(entries, batch);
    }
  }

  class PineconeUploader {
    const index: VectorIndex

    /** The uploader once its index exists. */
    constructor(index: VectorIndex)
      ensures this.index == index
    {
      this.index := index;
    }

    /** PineconeUploader.upload_vectors. A batch size of 0 raises before any
        call (ok is false); a negative one makes an empty range. */
    method UploadVectors(vectors: seq<Vector>, batchSize: int) returns (ok: bool)
      modifies index
      ensures ok <==> batchSize != 0
      ensures batchSize > 0 ==> index.log == old(index.log) + Batches(vectors, batchSize)
      ensures batchSize > 0 ==> index.entries == Store(old(index.entries), vectors)
      ensures batchSize <= 0 ==> index.log == old(index.log) && index.entries == old(index.entries)
    {
      if batchSize == 0 {
        return false;
      }
      ok := true;
      if batchSize < 0 {
        return;
      }
      var n := |vectors|;
      var i := 0;
      while i < n
        invariant 0 <= i <= n
        invariant old(index.log) + Batches(vectors, batchSize)
                  == index.log + Batches(vectors[i..], batchSize)
        invariant index.entries == Store(old(index.entries), vectors[..i])
      {
        var batch := vectors[i..Min(i + batchSize, n)];
        UploadStep(vectors, batchSize, i, old(index.log), index.log, old(index.entries), index.entries);
        index.Upsert(batch);
        i := Min(i + batchSize, n);
      }
      assert vectors[..n] == vectors;
    }
  }

  // ---------------------------------------------------------------------------
  // From the chunker to the index

  function WithEmbedding(c: Chunking.Chunk, e: Embedding): EmbeddedChunk
  {
    EmbeddedChunk(c.text, c.metadata, e)
  }

  /** A chunk of a paper can always be prepared unless the paper's title is
      not text, and its vector's id is the paper's id and the position. */
  lemma PaperChunkPrepares(p: Chunking.Paper, size: nat, overlap: int, k: nat, e: Embedding, position: nat)
    requires overlap < size && k < |Chunking.PaperChunks(p, size, overlap)|
    ensures var r := PrepareVector(WithEmbedding(Chunking.PaperChunks(p, size, overlap)[k], e), position);
            && (r.Ok? <==> Chunking.BaseMetadata(p)["title"].Str?)
            && (r.Ok? ==> r.value.id == p.arxivId + "_chunk_" + Decimal(position))
  {
    var text := p.fullText;
    var meta := Chunking.BaseMetadata(p);
    Chunking.ChunkOrigin(text, meta, size, overlap, k);
    Chunking.MakeChunkShape(Words(text), meta, size, Chunking.ChunkStarts(text, size, overlap)[k], k);
    PrepareVectorSpec(WithEmbedding(Chunking.PaperChunks(p, size, overlap)[k], e), position);
  }
}
