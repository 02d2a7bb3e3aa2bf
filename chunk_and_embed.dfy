// The word-window chunker of the embedding stage: a paper's full text is
// split into whitespace-delimited words, cut into overlapping windows of
// `chunkSize` words starting every `chunkSize - chunkOverlap` words, and
// every window whose joined text is longer than 50 characters becomes a
// numbered chunk carrying the paper's metadata.

module Chunking {
  import opened Builtins

  const DefaultChunkSize: nat := 500
  const DefaultChunkOverlap: int := 100

  /** Windows whose joined text has at most this many characters are skipped. */
  const MinChunkLength: nat := 50

  /** The metadata keys a chunk adds on top of the paper's metadata. */
  const ChunkKeys: set<string> := {"chunk_index", "start_word", "end_word"}

  datatype Chunk = Chunk(text: string, metadata: map<string, Value>)

  /** One record of the extracted-papers file, as the chunker reads it.
      `metadata` is None where the record has no "metadata" entry. */
  datatype Paper = Paper(
    arxivId: string,
    filename: string,
    numPages: int,
    metadata: Option<map<string, Value>>,
    fullText: string)

  // ---------------------------------------------------------------------------
  // Window offsets: range(from, n, step)

  function Starts(from: nat, n: nat, step: nat): seq<nat>
    requires step > 0
    decreases n - from
  {
    if from >= n then [] else [from] + Starts(from + step, n, step)
  }

  /** Every offset lies in [from, n). */
  lemma {:induction false} StartsBounds(from: nat, n: nat, step: nat)
    requires step > 0
    ensures forall k :: 0 <= k < |Starts(from, n, step)| ==> from <= Starts(from, n, step)[k] < n
    decreases n - from
  {
    if from < n {
      StartsBounds(from + step, n, step);
    }
  }

  /** The `k`-th offset is `from + k * step`. */
  lemma {:induction false} StartsAt(from: nat, n: nat, step: nat, k: nat)
    requires step > 0 && k < |Starts(from, n, step)|
    ensures Starts(from, n, step)[k] == from + k * step
    decreases k
  {
    if k > 0 {
      StartsAt(from + step, n, step, k - 1);
      assert (k - 1) * step + step == k * step;
    }
  }

  lemma {:induction false} StartsLength(from: nat, n: nat, step: nat)
    requires step > 0
    ensures |Starts(from, n, step)| == if from >= n then 0 else (n - from - 1) / step + 1
    decreases n - from
  {
    if from < n {
      StartsLength(from + step, n, step);
      if from + step >= n {
        DivModUnique(n - from - 1, step, 0, n - from - 1);
      } else {
        DivModAddStep(n - from - step - 1, step);
      }
    }
  }

  /** There are ceil(n / step) windows. */
  lemma StartsCount(n: nat, step: nat)
    requires step > 0
    ensures |Starts(0, n, step)| == (n + step - 1) / step
  {
    StartsLength(0, n, step);
    if n == 0 {
      DivModUnique(step - 1, step, 0, step - 1);
    } else {
      DivModAddStep(n - 1, step);
    }
  }

  /** The offsets are exactly the values from `from` below `n` that are a
      whole number of steps past `from`. */
  lemma {:induction false} StartsMember(from: nat, n: nat, step: nat, x: int)
    requires step > 0
    ensures x in Starts(from, n, step) <==> from <= x < n && (x - from) % step == 0
    decreases n - from
  {
    if from < n {
      StartsMember(from + step, n, step, x);
      DivModUnique(0, step, 0, 0);
      if from < x < from + step {
        DivModUnique(x - from, step, 0, x - from);
      } else if x >= from + step {
        DivModAddStep(x - from - step, step);
      }
    }
  }

  predicate Increasing(s: seq<nat>)
  {
    forall i, j :: 0 <= i < j < |s| ==> s[i] < s[j]
  }

  lemma {:induction false} StartsIncreasing(from: nat, n: nat, step: nat)
    requires step > 0
    ensures Increasing(Starts(from, n, step))
    decreases n - from
  {
    if from < n {
      StartsIncreasing(from + step, n, step);
      StartsBounds(from + step, n, step);
    }
  }

  /** With a non-negative overlap the windows leave no word out. */
  lemma WindowsCover(n: nat, size: nat, overlap: int, j: nat)
    requires 0 <= overlap < size && j < n
    ensures var st := Starts(0, n, size - overlap);
            exists k :: 0 <= k < |st| && st[k] <= j < Min(st[k] + size, n)
  {
    var step := size - overlap;
    var st := Starts(0, n, step);
    var q := j / step;
    var s := q * step;
    assert s <= j < s + step;
    DivModUnique(s, step, q, 0);
    StartsMember(0, n, step, s);
    var k :| 0 <= k < |st| && st[k] == s;
  }

  // ---------------------------------------------------------------------------
  // Windows and the length filter

  /** words[start : start + size], with Python's clamping of slice bounds. */
  function Window(words: seq<string>, start: nat, size: nat): seq<string>
  {
    words[Min(start, |words|)..Min(start + size, |words|)]
  }

  /** The window's joined text is longer than 50 characters. The source
      measures the text after `strip()`; WindowStripped shows that this is
      the same length for the words of a text. */
  predicate IsLong(words: seq<string>, start: nat, size: nat)
  {
    |Join(Window(words, start, size), " ")| > MinChunkLength
  }

  lemma WindowWords(words: seq<string>, start: nat, size: nat)
    requires AllWords(words)
    ensures AllWords(Window(words, start, size))
  {
    var w := Window(words, start, size);
    forall i | 0 <= i < |w| ensures IsWord(w[i]) {
      assert w[i] == words[Min(start, |words|) + i];
    }
  }

  /** Joining words by single spaces leaves nothing for `strip()` to cut. */
  lemma WindowStripped(words: seq<string>, start: nat, size: nat)
    requires AllWords(words)
    ensures Strip(Join(Window(words, start, size), " ")) == Join(Window(words, start, size), " ")
  {
    WindowWords(words, start, size);
    JoinWordsStripped(Window(words, start, size));
  }

  /** The offsets whose window passes the length filter, in order. */
  function KeptStarts(words: seq<string>, size: nat, starts: seq<nat>): seq<nat>
  {
    if starts == [] then []
    else (if IsLong(words, starts[0], size) then [starts[0]] else [])
         + KeptStarts(words, size, starts[1..])
  }

  /** An offset is kept exactly when it is one of `starts` and its window
      passes the length filter. */
  lemma {:induction false} KeptStartsMember(words: seq<string>, size: nat, starts: seq<nat>, x: nat)
    ensures x in KeptStarts(words, size, starts) <==> x in starts && IsLong(words, x, size)
  {
    if starts != [] {
      KeptStartsMember(words, size, starts[1..], x);
      assert starts == [starts[0]] + starts[1..];
    }
  }

  lemma {:induction false} KeptStartsIncreasing(words: seq<string>, size: nat, starts: seq<nat>)
    requires Increasing(starts)
    ensures Increasing(KeptStarts(words, size, starts))
  {
    if starts != [] {
      KeptStartsIncreasing(words, size, starts[1..]);
      var rest := KeptStarts(words, size, starts[1..]);
      forall j | 0 <= j < |rest| ensures starts[0] < rest[j] {
        KeptStartsMember(words, size, starts[1..], rest[j]);
        var m :| 0 <= m < |starts[1..]| && starts[1..][m] == rest[j];
        assert starts[m + 1] == rest[j];
      }
      var r := KeptStarts(words, size, starts);
      if IsLong(words, starts[0], size) {
        forall a, b | 0 <= a < b < |r| ensures r[a] < r[b] {
          assert r[b] == rest[b - 1];
          if a > 0 {
            assert r[a] == rest[a - 1];
          }
        }
      }
    }
  }

  // ---------------------------------------------------------------------------
  // chunk_text

  /** The chunk built for the window at `start`, numbered `index`. */
  function MakeChunk(words: seq<string>, meta: map<string, Value>, size: nat, start: nat, index: nat): Chunk
  {
    var w := Window(words, start, size);
    Chunk(Join(w, " "),
          meta + map["chunk_index" := Int(index), "start_word" := Int(start), "end_word" := Int(start + |w|)])
  }

  /** The word offsets of the chunks of `text`, in chunk order. An overlap
      larger than the size makes a negative step, and `range(0, n, step)` is
      then empty; an overlap equal to the size makes a zero step, which
      raises, so it is excluded. */
  function ChunkStarts(text: string, size: nat, overlap: int): seq<nat>
    requires overlap != size
  {
    var words := Words(text);
    if overlap > size then [] else KeptStarts(words, size, Starts(0, |words|, size - overlap))
  }

  /** The chunks for the windows at `kept`, numbered from 0. */
  function ChunksAt(words: seq<string>, meta: map<string, Value>, size: nat, kept: seq<nat>): seq<Chunk>
  {
    seq(|kept|, k requires 0 <= k < |kept| => MakeChunk(words, meta, size, kept[k], k))
  }

  lemma ChunksAtSnoc(words: seq<string>, meta: map<string, Value>, size: nat, kept: seq<nat>, i: nat)
    ensures ChunksAt(words, meta, size, kept + [i])
            == ChunksAt(words, meta, size, kept) + [MakeChunk(words, meta, size, i, |kept|)]
  {
    var l := ChunksAt(words, meta, size, kept + [i]);
    var r := ChunksAt(words, meta, size, kept) + [MakeChunk(words, meta, size, i, |kept|)];
    forall k | 0 <= k < |l| ensures l[k] == r[k] {
      if k < |kept| {
        assert (kept + [i])[k] == kept[k];
      }
    }
  }

  /** The chunks of `text`: chunk `k` is the `k`-th window that passes the
      length filter, numbered `k`. */
  function ChunkSpec(text: string, meta: map<string, Value>, size: nat, overlap: int): seq<Chunk>
    requires overlap != size
  {
    ChunksAt(Words(text), meta, size, ChunkStarts(text, size, overlap))
  }

  /** One step of the chunking loop: the window at `i` is kept or not, and
      the offsets still to come start at `i + step`. */
  lemma KeptStartsStep(words: seq<string>, size: nat, step: nat, i: nat, kept: seq<nat>)
    requires step > 0 && i < |words|
    requires KeptStarts(words, size, Starts(0, |words|, step))
             == kept + KeptStarts(words, size, Starts(i, |words|, step))
    ensures IsLong(words, i, size) ==>
              KeptStarts(words, size, Starts(0, |words|, step))
              == (kept + [i]) + KeptStarts(words, size, Starts(i + step, |words|, step))
    ensures !IsLong(words, i, size) ==>
              KeptStarts(words, size, Starts(0, |words|, step))
              == kept + KeptStarts(words, size, Starts(i + step, |words|, step))
  {
    var st := Starts(i, |words|, step);
    assert st[1..] == Starts(i + step, |words|, step);
    var rest := KeptStarts(words, size, st[1..]);
    if IsLong(words, i, size) {
      assert kept + ([i] + rest) == (kept + [i]) + rest;
    } else {
      assert [] + rest == rest;
    }
  }

  /** One pass of the chunking loop: the words of the window at `i`, joined
      by spaces, become chunk number `index` when the joined text is longer
      than 50 characters once stripped. */
  method WindowChunk(words: seq<string>, meta: map<string, Value>, chunkSize: nat, i: nat, index: nat)
    returns (chunk: Option<Chunk>)
    requires i < |words| && AllWords(words)
    ensures chunk.Some? <==> IsLong(words, i, chunkSize)
    ensures chunk.Some? ==> chunk.value == MakeChunk(words, meta, chunkSize, i, index)
  {
    var chunkWords := words[i..Min(i + chunkSize, |words|)];
    var chunkText := Join(chunkWords, " ");
    assert chunkWords == Window(words, i, chunkSize);
    WindowStripped(words, i, chunkSize);
    if |Strip(chunkText)| > MinChunkLength {
      chunk := Some(Chunk(chunkText, meta + map["chunk_index" := Int(index),
                                                "start_word" := Int(i),
                                                "end_word" := Int(i + |chunkWords|)]));
    } else {
      chunk := None;
    }
  }

  /** TextChunker.chunk_text with the chunker's two settings passed in. */
  method ChunkText(text: string, meta: map<string, Value>, chunkSize: nat, chunkOverlap: int)
    returns (chunks: seq<Chunk>)
    requires chunkOverlap != chunkSize
    ensures chunks == ChunkSpec(text, meta, chunkSize, chunkOverlap)
  {
    if chunkOverlap > chunkSize {
      return [];
    }
    var words := Words(text);
    WordsAreWords(text);
    var n := |words|;
    var step: nat := chunkSize - chunkOverlap;
    chunks := [];
    ghost var kept: seq<nat> := [];
    var i: nat := 0;
    while i < n
      invariant KeptStarts(words, chunkSize, Starts(0, n, step))
                == kept + KeptStarts(words, chunkSize, Starts(i, n, step))
      invariant chunks == ChunksAt(words, meta, chunkSize, kept)
      decreases n - i
    {
      var chunk := WindowChunk(words, meta, chunkSize, i, |chunks|);
      KeptStartsStep(words, chunkSize, step, i, kept);
      if chunk.Some? {
        ChunksAtSnoc(words, meta, chunkSize, kept, i);
        chunks := chunks + [chunk.value];
        kept := kept + [i];
      }
      i := i + step;
    }
  }

  // ---------------------------------------------------------------------------
  // Properties of the chunks

  /** The chunk made for a window that passes the filter: the window's words
      joined by single spaces, longer than 50 characters, splitting back into
      exactly those words, with offsets that say where the window lies. */
  lemma MakeChunkShape(words: seq<string>, meta: map<string, Value>, size: nat, s: nat, index: nat)
    requires AllWords(words) && s < |words| && IsLong(words, s, size)
    ensures var c := MakeChunk(words, meta, size, s, index);
            var e := Min(s + size, |words|);
            && s < e <= |words| && e - s <= size
            && c.text == Join(words[s..e], " ")
            && |c.text| > MinChunkLength
            && Words(c.text) == words[s..e]
            && c.metadata.Keys == meta.Keys + ChunkKeys
            && c.metadata["chunk_index"] == Int(index)
            && c.metadata["start_word"] == Int(s)
            && c.metadata["end_word"] == Int(e)
            && forall key :: key in meta && key !in ChunkKeys ==> c.metadata[key] == meta[key]
  {
    var e := Min(s + size, |words|);
    assert Window(words, s, size) == words[s..e];
    WindowWords(words, s, size);
    WordsOfJoin(words[s..e]);
  }

  /** Where chunk `k` of `text` comes from. */
  lemma ChunkOrigin(text: string, meta: map<string, Value>, size: nat, overlap: int, k: nat)
    requires overlap != size && k < |ChunkSpec(text, meta, size, overlap)|
    ensures var words := Words(text);
            var s := ChunkStarts(text, size, overlap)[k];
            && s < |words| && s % (size - overlap) == 0 && IsLong(words, s, size)
            && AllWords(words)
            && ChunkSpec(text, meta, size, overlap)[k] == MakeChunk(words, meta, size, s, k)
  {
    var words := Words(text);
    var st := Starts(0, |words|, size - overlap);
    var s := ChunkStarts(text, size, overlap)[k];
    KeptStartsMember(words, size, st, s);
    StartsMember(0, |words|, size - overlap, s);
    WordsAreWords(text);
  }

  /** Chunk `k` is the words of a window starting at a multiple of the step
      below the word count, joined by single spaces; it is longer than 50
      characters, and splitting it again gives back exactly those words. */
  lemma ChunkWindow(text: string, meta: map<string, Value>, size: nat, overlap: int, k: nat)
    requires overlap < size && k < |ChunkSpec(text, meta, size, overlap)|
    ensures var words := Words(text);
            var c := ChunkSpec(text, meta, size, overlap)[k];
            var s := ChunkStarts(text, size, overlap)[k];
            var e := Min(s + size, |words|);
            && s < e <= |words| && e - s <= size
            && s % (size - overlap) == 0
            && c.text == Join(words[s..e], " ")
            && |c.text| > MinChunkLength
            && Words(c.text) == words[s..e]
  {
    ChunkOrigin(text, meta, size, overlap, k);
    MakeChunkShape(Words(text), meta, size, ChunkStarts(text, size, overlap)[k], k);
  }

  /** Chunk `k` carries every entry of `meta` except the three it sets
      itself, and `chunk_index`, `start_word`, `end_word` say which window
      it is; `chunk_index` counts the chunks, not the windows. */
  lemma ChunkMetadata(text: string, meta: map<string, Value>, size: nat, overlap: int, k: nat)
    requires overlap < size && k < |ChunkSpec(text, meta, size, overlap)|
    ensures var c := ChunkSpec(text, meta, size, overlap)[k];
            var s := ChunkStarts(text, size, overlap)[k];
            && c.metadata.Keys == meta.Keys + ChunkKeys
            && c.metadata["chunk_index"] == Int(k)
            && c.metadata["start_word"] == Int(s)
            && c.metadata["end_word"] == Int(Min(s + size, |Words(text)|))
            && forall key :: key in meta && key !in ChunkKeys ==> c.metadata[key] == meta[key]
  {
    ChunkOrigin(text, meta, size, overlap, k);
    MakeChunkShape(Words(text), meta, size, ChunkStarts(text, size, overlap)[k], k);
  }

  /** A window yields a chunk exactly when it starts at a multiple of the
      step below the word count and its joined text, stripped, is longer
      than 50 characters. */
  lemma ChunkSelection(text: string, size: nat, overlap: int, s: nat)
    requires overlap < size
    ensures var words := Words(text);
            s in ChunkStarts(text, size, overlap)
            <==> s < |words| && s % (size - overlap) == 0
                 && |Strip(Join(Window(words, s, size), " "))| > MinChunkLength
  {
    var words := Words(text);
    ChunkStartsMember(text, size, overlap, s);
    WordsAreWords(text);
    WindowStripped(words, s, size);
  }

  lemma ChunkStartsMember(text: string, size: nat, overlap: int, s: nat)
    requires overlap < size
    ensures var words := Words(text);
            s in ChunkStarts(text, size, overlap)
            <==> s < |words| && s % (size - overlap) == 0 && IsLong(words, s, size)
  {
    var words := Words(text);
    KeptStartsMember(words, size, Starts(0, |words|, size - overlap), s);
    StartsMember(0, |words|, size - overlap, s);
  }

  /** Chunk offsets strictly increase. */
  lemma ChunkStartsIncreasing(text: string, size: nat, overlap: int)
    requires overlap < size
    ensures Increasing(ChunkStarts(text, size, overlap))
  {
    var words := Words(text);
    StartsIncreasing(0, |words|, size - overlap);
    KeptStartsIncreasing(words, size, Starts(0, |words|, size - overlap));
  }

  /** A text without words (empty or all whitespace) has no chunks. */
  lemma ChunkTextBlank(text: string, meta: map<string, Value>, size: nat, overlap: int)
    requires overlap != size
    requires forall i :: 0 <= i < |text| ==> IsSpace(text[i])
    ensures ChunkSpec(text, meta, size, overlap) == []
  {
    WordsEmpty(text);
  }

  /** An overlap larger than the chunk size yields no chunks, whatever the
      text: the offsets would decrease from 0, so there are none below the
      word count. */
  lemma ChunkTextNegativeStep(text: string, meta: map<string, Value>, size: nat, overlap: int)
    requires overlap > size
    ensures ChunkSpec(text, meta, size, overlap) == []
  {
  }

  /** With the default settings a 1000-word text has three windows, at 0,
      400 and 800, all long enough to be kept: the last one, words 800 to
      1000, repeats the 100 words 800 to 900 of the one before. */
  lemma ThousandWords(text: string, meta: map<string, Value>)
    requires |Words(text)| == 1000
    ensures var r := ChunkSpec(text, meta, DefaultChunkSize, DefaultChunkOverlap);
            && |r| == 3
            && ChunkStarts(text, DefaultChunkSize, DefaultChunkOverlap) == [0, 400, 800]
            && r[0].metadata["end_word"] == Int(500)
            && r[1].metadata["end_word"] == Int(900)
            && r[2].metadata["end_word"] == Int(1000)
  {
    var words := Words(text);
    assert Starts(0, 1000, 400) == [0, 400, 800] by {
      assert Starts(1200, 1000, 400) == [];
      assert Starts(800, 1000, 400) == [800];
      assert Starts(400, 1000, 400) == [400, 800];
    }
    WordsAreWords(text);
    forall s: nat | s in [0, 400, 800] ensures IsLong(words, s, 500) {
      var w := Window(words, s, 500);
      assert AllWords(w) by {
        forall i | 0 <= i < |w| ensures IsWord(w[i]) {
          assert w[i] == words[s + i];
        }
      }
      JoinWordsStripped(w);
      JoinLength(w, " ");
    }
    var st := [0, 400, 800];
    assert KeptStarts(words, 500, st) == st by {
      assert st[1..][1..][1..] == [];
      assert KeptStarts(words, 500, st[1..][1..]) == [800];
      assert KeptStarts(words, 500, st[1..]) == [400, 800];
    }
  }

  // ---------------------------------------------------------------------------
  // process_paper and process_all_papers

  /** The metadata every chunk of `p` inherits; the title is "Unknown" when
      the record has no metadata or its metadata has no title. */
  function BaseMetadata(p: Paper): (m: map<string, Value>)
    ensures m.Keys == {"arxiv_id", "filename", "num_pages", "title"}
  {
    map["arxiv_id" := Str(p.arxivId),
        "filename" := Str(p.filename),
        "num_pages" := Int(p.numPages),
        "title" := match p.metadata
                   case Some(md) => if "title" in md then md["title"] else Str("Unknown")
                   case None => Str("Unknown")]
  }

  function PaperChunks(p: Paper, size: nat, overlap: int): seq<Chunk>
    requires overlap != size
  {
    ChunkSpec(p.fullText, BaseMetadata(p), size, overlap)
  }

  /** TextChunker.process_paper */
  method ProcessPaper(p: Paper, chunkSize: nat, chunkOverlap: int) returns (chunks: seq<Chunk>)
    requires chunkOverlap != chunkSize
    ensures chunks == PaperChunks(p, chunkSize, chunkOverlap)
  {
    var baseMetadata := BaseMetadata(p);
    chunks := ChunkText(p.fullText, baseMetadata, chunkSize, chunkOverlap);
  }

  /** Every chunk of a paper names the paper, its file and page count, and its
      title or "Unknown". */
  lemma PaperChunkMetadata(p: Paper, size: nat, overlap: int, k: nat)
    requires overlap != size && k < |PaperChunks(p, size, overlap)|
    ensures var md := PaperChunks(p, size, overlap)[k].metadata;
            && md["arxiv_id"] == Str(p.arxivId)
            && md["filename"] == Str(p.filename)
            && md["num_pages"] == Int(p.numPages)
            && md["title"] == (if p.metadata.Some? && "title" in p.metadata.value
                               then p.metadata.value["title"] else Str("Unknown"))
            && md["chunk_index"] == Int(k)
  {
    ChunkMetadata(p.fullText, BaseMetadata(p), size, overlap, k);
  }

  /** The chunks of all papers, paper after paper. */
  function AllChunks(papers: seq<Paper>, size: nat, overlap: int): seq<Chunk>
    requires overlap != size
  {
    if papers == [] then []
    else AllChunks(papers[..|papers| - 1], size, overlap) + PaperChunks(papers[|papers| - 1], size, overlap)
  }

  /** TextChunker.process_all_papers, starting from the parsed list of papers. */
  method ProcessAllPapers(papers: seq<Paper>, chunkSize: nat, chunkOverlap: int) returns (allChunks: seq<Chunk>)
    requires chunkOverlap != chunkSize
    ensures allChunks == AllChunks(papers, chunkSize, chunkOverlap)
  {
    allChunks := [];
    var i := 0;
    while i < |papers|
      invariant 0 <= i <= |papers|
      invariant allChunks == AllChunks(papers[..i], chunkSize, chunkOverlap)
    {
      var chunks := ProcessPaper(papers[i], chunkSize, chunkOverlap);
      allChunks := allChunks + chunks;
      assert papers[..i + 1][..i] == papers[..i];
      i := i + 1;
    }
    assert papers[..|papers|] == papers;
  }

  lemma {:induction false} AllChunksAppend(ps: seq<Paper>, qs: seq<Paper>, size: nat, overlap: int)
    requires overlap != size
    ensures AllChunks(ps + qs, size, overlap) == AllChunks(ps, size, overlap) + AllChunks(qs, size, overlap)
    decreases |qs|
  {
    if qs != [] {
      var qs' := qs[..|qs| - 1];
      assert (ps + qs)[..|ps + qs| - 1] == ps + qs';
      AllChunksAppend(ps, qs', size, overlap);
    } else {
      assert ps + qs == ps;
    }
  }

  /** Chunk `k` of paper `i` sits right after the chunks of the papers
      before it, and its `chunk_index` is `k`: numbering restarts at 0 for
      every paper. */
  lemma AllChunksAt(papers: seq<Paper>, size: nat, overlap: int, i: nat, k: nat)
    requires overlap != size && i < |papers| && k < |PaperChunks(papers[i], size, overlap)|
    ensures var o := |AllChunks(papers[..i], size, overlap)|;
            && o + k < |AllChunks(papers, size, overlap)|
            && AllChunks(papers, size, overlap)[o + k] == PaperChunks(papers[i], size, overlap)[k]
            && AllChunks(papers, size, overlap)[o + k].metadata["chunk_index"] == Int(k)
  {
    assert papers == papers[..i] + [papers[i]] + papers[i + 1..];
    AllChunksAppend(papers[..i] + [papers[i]], papers[i + 1..], size, overlap);
    AllChunksAppend(papers[..i], [papers[i]], size, overlap);
    assert AllChunks([papers[i]], size, overlap) == PaperChunks(papers[i], size, overlap);
    PaperChunkMetadata(papers[i], size, overlap, k);
  }
}
