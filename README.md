# Ingestion pipeline of the physics-paper RAG system, in Dafny

The offline ingestion pipeline has four stages: download arXiv PDFs, extract
and clean their text, cut the text into overlapping word windows, and upload
those windows to a Pinecone vector index. This project models the sequential
logic of each stage and proves what it computes:

- `Download` (download_papers.dfy) covers these downloader operations:
  - normalising an arXiv id (`normalize_arxiv_id`);
  - the ordered, duplicate-free list of candidate PDF URLs over the three
    mirrors (`get_arxiv_urls`);
  - collecting, deduplicating and sorting ids from the parsed pending-papers
    file (`extract_arxiv_ids_from_json`).
- `Extract` (extract_pdfs.dfy) covers the file-name-to-id rule (`_extract_arxiv_id`)
  and the three regular-expression passes of `_clean_text` plus `strip()`.
  - Each pass is a left-to-right scan function.
  - At each position the scan takes the greedy, longest match, as Python's
    `re.sub` does.
  - It also covers the page loop of `extract_text_from_pdf`. The PDF is given
    as the sequence of raw page texts the PDF library returns.
- `Chunking` (chunk_and_embed.dfy) covers `TextChunker.chunk_text`,
  `process_paper` and `process_all_papers`. These compute the windows starting
  at `0, s, 2s, ...` (with `s = chunk_size - chunk_overlap`), the drop of short
  windows, chunk numbering and metadata merging.
- `Upload` (upload_to_pinecone.dfy) covers `PineconeUploader.prepare_vectors`
  (ids, truncated metadata, and the `KeyError`/`TypeError` paths of the
  metadata keys and the title slice) and
  `upload_vectors`. Upload sends batches to a `VectorIndex`. The index records
  every `upsert` in a ghost log and holds an id-to-vector map in which a later
  vector overwrites an earlier one with the same id.
- `Builtins` (builtins.dfy) holds the Python `str` behaviour the scripts rely
  on: `split()`, `split(c)`, `join`, `strip`, `replace`, `s[:n]`, `str(n)` and
  string `<`. Most of these functions come with lemmas connecting them to a
  partner (for example, join after split gives the text back, and `str(n)`
  can be parsed back); `replace` has only the lemma that it leaves a text
  without the pattern unchanged.

The methods follow the scripts' loops. Most are proved equal to a
specification function, for example `ChunkText` to `ChunkSpec`,
`GetArxivUrls` to `ArxivUrls`, and `UploadVectors` to `Batches` and `Store`;
the properties the scripts promise are then proved as lemmas about those
functions. `SortUnique` and `ExtractArxivIds` are specified by properties
instead: sorted, without repeats, and holding exactly the collected ids.

Where the code and its own description disagree, the model follows the code:

- A window is emitted for every start below the word count, even when an
  earlier window already reaches the end of the text. A 1000-word text with
  size 500 and overlap 100 therefore yields three chunks, starting at words 0,
  400 and 800 and ending at 500, 900 and 1000 (`Chunking.ThousandWords`), not
  two: the window at 800 is emitted because 800 is a start below 1000.
  With 850 words the windows start at 0, 400 and 800 too, and the last one,
  words 800 to 850, ends where the one before it ends.
- Windows of 50 characters or fewer are dropped, so the chunks need not cover
  every word of the text.
- `normalize_arxiv_id` cuts at the first `'v'` anywhere in the id, not only at a
  version suffix.
- The page-number pass of `_clean_text` cannot match overlapping spans, so of
  two page-number lines in a row only the first is removed: "\n1\n2\n"
  becomes "\n2\n" (`Extract.DropPageNumberLinesAdjacent`).

## Model

| member | source | states |
|---|---|---|
| Builtins.Truncate | ingestion/upload_to_pinecone.py:80-83 | `s[:n]` keeps the first min(len, n) items and is the whole sequence when it is no longer than n |
| Builtins.JoinPieceAt | ingestion/extract_pdfs.py:55 | after `sep.join(xs)` each piece can be read back at the offset of the pieces and separators before it |
| Builtins.JoinLength | ingestion/chunk_and_embed.py:35 | a join of non-empty pieces is at least as long as the number of pieces |
| Builtins.SkipSpace | ingestion/extract_pdfs.py:72 | the whitespace run at i, matched greedily as `\s*` and skipped by `strip()`, ends at the first non-whitespace character |
| Builtins.SkipSpaceBack | ingestion/extract_pdfs.py:78 | the backward scan stops right after the last non-whitespace character before j |
| Builtins.Strip | ingestion/extract_pdfs.py:78 | `strip()` leaves no whitespace at either end |
| Builtins.StripSlice | ingestion/extract_pdfs.py:78 | `strip()` removes only whitespace: the result is a slice of the input with only whitespace before and after it |
| Builtins.StripTrimmed | ingestion/chunk_and_embed.py:37 | `strip()` of a text with no whitespace at either end is that text |
| Builtins.WordEnd | ingestion/chunk_and_embed.py:30 | a word runs to the next whitespace character or the end |
| Builtins.WordsAreWords | ingestion/chunk_and_embed.py:30 | every piece of `split()` is non-empty and has no whitespace |
| Builtins.WordsEmpty | ingestion/chunk_and_embed.py:30 | `split()` is empty exactly when the text is all whitespace |
| Builtins.WordsOfWordThen | ingestion/chunk_and_embed.py:30 | a word followed by whitespace is split off first |
| Builtins.WordsOfJoin | ingestion/chunk_and_embed.py:30-35 | splitting the words joined by single spaces gives the words back |
| Builtins.JoinWordsEnds | ingestion/chunk_and_embed.py:35 | words joined by single spaces neither start nor end with whitespace |
| Builtins.JoinWordsStripped | ingestion/chunk_and_embed.py:35-37 | `strip()` leaves words joined by single spaces unchanged, so the short-window test measures the joined text itself |
| Builtins.Split | ingestion/download_papers.py:89 | `split(c)` always gives at least one piece |
| Builtins.SplitFirst | ingestion/download_papers.py:89 | the first piece is the prefix before the first c, holds no c, and a second piece exists exactly when c occurs |
| Builtins.JoinSplit | ingestion/download_papers.py:89 | joining the pieces with c gives the text back, and no piece holds c |
| Builtins.ReplaceAbsent | ingestion/extract_pdfs.py:65 | `replace` leaves a text without the pattern unchanged |
| Builtins.DigitChar | ingestion/upload_to_pinecone.py:75 | a digit value maps to a decimal digit character |
| Builtins.DigitRoundTrip | ingestion/upload_to_pinecone.py:75 | the value of a digit's character is the digit |
| Builtins.Decimal | ingestion/upload_to_pinecone.py:75 | `str(n)` of a natural number is a non-empty string of digits with no leading zero: it starts with '0' only for 0, and has one digit exactly below 10 |
| Builtins.ParseDecimalOfDecimal | ingestion/upload_to_pinecone.py:75 | reading `str(n)` back as a number gives n |
| Builtins.DecimalInjective | ingestion/upload_to_pinecone.py:75 | different positions have different decimal texts |
| Builtins.TrailingDigits | ingestion/upload_to_pinecone.py:75 | the trailing digit run is a suffix of the text |
| Builtins.TrailingDigitsAfter | ingestion/upload_to_pinecone.py:75 | after a non-digit, the trailing digits of `p + d` are exactly d |
| Builtins.StrLessIrreflexive | ingestion/download_papers.py:72 | string `<` is irreflexive |
| Builtins.StrLessTransitive | ingestion/download_papers.py:72 | string `<` is transitive |
| Builtins.StrLessTotal | ingestion/download_papers.py:72 | of two different strings one is smaller |
| Builtins.StrLessAsymmetric | ingestion/download_papers.py:72 | string `<` is asymmetric |
| Extract.ExtractArxivIdNoPdf | ingestion/extract_pdfs.py:65 | a file name without ".pdf" is returned unchanged |
| Extract.ExtractArxivIdOfPdfName | ingestion/extract_pdfs.py:65 | the id of `s + ".pdf"` is s when s holds no ".pdf" |
| Extract.ExtractArxivIdExample | ingestion/extract_pdfs.py:63 | "1110.2569v3.pdf" gives "1110.2569v3" |
| Extract.DigitRunEnd | ingestion/extract_pdfs.py:76 | `\d+` matched greedily: the run ends at the first non-digit |
| Extract.LastNewline | ingestion/extract_pdfs.py:72 | finds the last newline in a range, or reports that there is none |
| Extract.BlankSpan | ingestion/extract_pdfs.py:72 | the match of `\n\s*\n` at a position is the longest newline-whitespace-newline span there, or none exists |
| Extract.PageNumberPartsFixed | ingestion/extract_pdfs.py:76 | in a `\n\s*\d+\s*\n` match the whitespace and digit runs are the greedy ones |
| Extract.PageNumberSpan | ingestion/extract_pdfs.py:76 | the match of `\n\s*\d+\s*\n` at a position is the longest such span there, or none exists |
| Extract.BlankRunEnd | ingestion/extract_pdfs.py:73 | ` +` matched greedily: the run of spaces ends at the first non-space |
| Extract.CleanText | ingestion/extract_pdfs.py:67-78 | the cleaned text has no whitespace at either end and no two spaces in a row |
| Extract.CollapseBlankLinesHead | ingestion/extract_pdfs.py:72 | the blank-line pass keeps the first character and emptiness |
| Extract.CollapseSpacesHead | ingestion/extract_pdfs.py:73 | the space pass keeps the first character and emptiness |
| Extract.DropPageNumberLinesHead | ingestion/extract_pdfs.py:76 | the page-number pass keeps the first character and emptiness |
| Extract.CollapseSpacesNoDoubleSpace | ingestion/extract_pdfs.py:73 | after the space pass no two spaces are adjacent |
| Extract.CollapseSpacesIdentity | ingestion/extract_pdfs.py:73 | a text without two adjacent spaces is left unchanged |
| Extract.CollapseSpacesIdempotent | ingestion/extract_pdfs.py:73 | applying the space pass twice equals applying it once |
| Extract.DropPageNumberLinesKeepsNoDoubleSpace | ingestion/extract_pdfs.py:76 | the page-number pass only inserts newlines, so it creates no double space |
| Extract.StripKeepsNoDoubleSpace | ingestion/extract_pdfs.py:78 | `strip()` creates no double space |
| Extract.DropPageNumberLinesWithoutDigits | ingestion/extract_pdfs.py:76 | a text without digits is untouched by the page-number pass |
| Extract.DropPageNumberLinesAdjacent | ingestion/extract_pdfs.py:76 | of two page-number lines in a row only the first is removed, because the matches cannot overlap |
| Extract.NewlineSpanShift | ingestion/extract_pdfs.py:72 | a newline-whitespace-newline span is found the same way after a prefix |
| Extract.LeadingNewlineShift | ingestion/extract_pdfs.py:72 | a whitespace prefix without newlines does not change whether a newline follows it |
| Extract.NoBlankLinesSuffix | ingestion/extract_pdfs.py:72 | a suffix of a text without blank-line runs has none either |
| Extract.NoBlankLinesCons | ingestion/extract_pdfs.py:72 | a non-newline in front creates no blank-line run |
| Extract.NoBlankLinesAfterNewlines | ingestion/extract_pdfs.py:72 | the "\n" or "\n\n" put in by a replacement creates no new blank-line run |
| Extract.CollapseBlankLinesLeadingNewline | ingestion/extract_pdfs.py:72 | the blank-line pass keeps whether the text starts with whitespace then a newline |
| Extract.AfterBlankSpan | ingestion/extract_pdfs.py:72 | after the longest blank span no newline follows within whitespace |
| Extract.AfterUnmatchedNewline | ingestion/extract_pdfs.py:72 | after a newline that starts no blank span no newline follows within whitespace |
| Extract.CollapseBlankLinesNoBlankLines | ingestion/extract_pdfs.py:72 | after the blank-line pass any two newlines with only whitespace between them are adjacent |
| Extract.BlankSpanIsPair | ingestion/extract_pdfs.py:72 | in a text with no blank-line run left, a match of `\n\s*\n` is exactly the two newlines "\n\n" |
| Extract.CollapseBlankLinesIdentity | ingestion/extract_pdfs.py:72 | a text in which every two newlines with only whitespace between them are adjacent is left unchanged |
| Extract.CollapseBlankLinesIdempotent | ingestion/extract_pdfs.py:72 | applying the blank-line pass twice equals applying it once |
| Extract.CleanedPages | ingestion/extract_pdfs.py:42-53 | one cleaned text per raw page |
| Extract.CleanPages | ingestion/extract_pdfs.py:41-53 | page k is numbered k + 1 and holds raw page k cleaned; the texts are collected in page order |
| Extract.PagesInJoin | ingestion/extract_pdfs.py:55 | pages holding the texts joined by "\n\n" can each be read back out of the joined text at the offset of the earlier texts and separators |
| Extract.ExtractTextFromPdf | ingestion/extract_pdfs.py:20-58 | the record holds the file name, its arXiv id, the page count, the document metadata, numbered cleaned pages, and the full text as the cleaned pages joined by "\n\n", out of which every page's text can be read back at its offset |
| Chunking.StartsBounds | ingestion/chunk_and_embed.py:33 | every window start lies in [0, number of words) |
| Chunking.StartsAt | ingestion/chunk_and_embed.py:33 | the k-th window starts at k times the step |
| Chunking.StartsLength | ingestion/chunk_and_embed.py:33 | the number of starts of a range from `from` below n |
| Chunking.StartsCount | ingestion/chunk_and_embed.py:33 | there are ceil(n / step) windows |
| Chunking.StartsMember | ingestion/chunk_and_embed.py:33 | x is a start exactly when x < n and x is a multiple of the step |
| Chunking.StartsIncreasing | ingestion/chunk_and_embed.py:33 | the starts are strictly increasing |
| Chunking.WindowsCover | ingestion/chunk_and_embed.py:33-34 | with overlap below size, every word lies in some window |
| Chunking.WindowWords | ingestion/chunk_and_embed.py:34 | a window of words holds only words |
| Chunking.WindowStripped | ingestion/chunk_and_embed.py:35-37 | a window's joined text is unchanged by `strip()` |
| Chunking.KeptStartsMember | ingestion/chunk_and_embed.py:33-37 | a start is kept exactly when its window's text is longer than 50 characters |
| Chunking.KeptStartsIncreasing | ingestion/chunk_and_embed.py:33-37 | dropping short windows keeps the starts increasing |
| Chunking.ChunksAtSnoc | ingestion/chunk_and_embed.py:38-46 | appending a kept start appends the chunk numbered by the count so far |
| Chunking.KeptStartsStep | ingestion/chunk_and_embed.py:33-37 | one pass of the loop keeps or drops the window at i |
| Chunking.WindowChunk | ingestion/chunk_and_embed.py:34-46 | the loop body emits a chunk exactly when the stripped window text is longer than 50 characters |
| Chunking.ChunkText | ingestion/chunk_and_embed.py:26-48 | the chunk list equals the specification: the long windows at the starts 0, s, 2s, ... in order, numbered consecutively, and no chunks for a negative step |
| Chunking.MakeChunkShape | ingestion/chunk_and_embed.py:34-46 | a chunk's text, word range, length and merged metadata |
| Chunking.ChunkOrigin | ingestion/chunk_and_embed.py:33-46 | chunk k comes from a kept start that is a multiple of the step |
| Chunking.ChunkWindow | ingestion/chunk_and_embed.py:34-44 | chunk k's text is the words start..min(start + size, n) joined by single spaces; it is longer than 50 characters and has at most size words |
| Chunking.ChunkMetadata | ingestion/chunk_and_embed.py:40-45 | chunk k's metadata has the base keys plus chunk_index = k, start_word and end_word, which override same-named base keys |
| Chunking.ChunkSelection | ingestion/chunk_and_embed.py:33-37 | a start yields a chunk exactly when it is a multiple of the step below n and its stripped window text is longer than 50 characters |
| Chunking.ChunkStartsMember | ingestion/chunk_and_embed.py:33-37 | the same selection stated with the joined length |
| Chunking.ChunkStartsIncreasing | ingestion/chunk_and_embed.py:33-43 | start_word strictly increases across chunks |
| Chunking.ChunkTextBlank | ingestion/chunk_and_embed.py:30-33 | an empty or all-whitespace text gives no chunks |
| Chunking.ChunkTextNegativeStep | ingestion/chunk_and_embed.py:33 | an overlap larger than the chunk size gives no chunks, since the range of starts is empty |
| Chunking.ThousandWords | ingestion/chunk_and_embed.py:18-19 | 1000 words with the default 500/100 give three chunks starting at 0, 400 and 800 and ending at 500, 900 and 1000 |
| Chunking.BaseMetadata | ingestion/chunk_and_embed.py:57-62 | the base metadata has exactly the keys arxiv_id, filename, num_pages and title |
| Chunking.ProcessPaper | ingestion/chunk_and_embed.py:50-67 | a paper's chunks are its full text chunked with the base metadata |
| Chunking.PaperChunkMetadata | ingestion/chunk_and_embed.py:54-65 | each chunk carries the paper's id, file name, page count, its title or "Unknown", and its index |
| Chunking.ProcessAllPapers | ingestion/chunk_and_embed.py:78-86 | all chunks are every paper's chunks concatenated in paper order |
| Chunking.AllChunksAppend | ingestion/chunk_and_embed.py:81-83 | the concatenation splits over two runs of papers |
| Chunking.AllChunksAt | ingestion/chunk_and_embed.py:81-83 | paper i's chunk k sits after the earlier papers' chunks and keeps the index k, so numbering restarts per paper |
| Upload.IdPosition | ingestion/upload_to_pinecone.py:75 | the digits at the end of an id are the position |
| Upload.IdsDistinct | ingestion/upload_to_pinecone.py:75 | vectors at different positions get different ids, whatever their arXiv ids |
| Upload.PrepareVector | ingestion/upload_to_pinecone.py:74-88 | a failure names the position of the chunk that raised |
| Upload.PrepareVectorSpec | ingestion/upload_to_pinecone.py:75-86 | preparation succeeds exactly when the five metadata keys exist and the title is text; the id is the arXiv id, "_chunk_" and the position; the embedding passes through; text and title are cut to 1000 and 200 characters; the other fields are copied |
| Upload.PreparedIdsDistinct | ingestion/upload_to_pinecone.py:74-75 | prepared vectors have pairwise distinct ids |
| Upload.PrepareVectors | ingestion/upload_to_pinecone.py:67-90 | one vector per chunk in order, or the error of the first chunk that fails |
| Upload.BatchesFlatten | ingestion/upload_to_pinecone.py:99-101 | the batches concatenated in order are the vectors |
| Upload.BatchesSizes | ingestion/upload_to_pinecone.py:99-100 | every batch has 1 to batch_size vectors and all but the last have exactly batch_size |
| Upload.BatchesCount | ingestion/upload_to_pinecone.py:99 | there are ceil(n / batch_size) batches, none for no vectors |
| Upload.BatchesStep | ingestion/upload_to_pinecone.py:99-100 | the batch at offset i comes before the batches of the rest |
| Upload.UploadStep | ingestion/upload_to_pinecone.py:99-101 | one upsert moves a batch from pending to sent in both the log and the index |
| Upload.StoreAppend | ingestion/upload_to_pinecone.py:101 | upserting a + b is upserting a then b |
| Upload.StoreOverrides | ingestion/upload_to_pinecone.py:101 | upserted vectors override what the index held under the same ids |
| Upload.StoreIdempotent | ingestion/upload_to_pinecone.py:101 | uploading the same vectors again changes nothing |
| Upload.StoreDistinct | ingestion/upload_to_pinecone.py:101 | with distinct ids every vector can be read back under its id, and no other id is added |
| Upload.VectorIndex.Upsert | ingestion/upload_to_pinecone.py:101 | an upsert is appended to the log and stored by id |
| Upload.PineconeUploader.constructor | ingestion/upload_to_pinecone.py:31-33 | the uploader is bound to the index it upserts into (the connection `create_index` sets up is passed in) |
| Upload.PineconeUploader.UploadVectors | ingestion/upload_to_pinecone.py:92-103 | batch size 0 raises before any call; a positive size upserts exactly the batches in order and the index ends as everything stored; a negative size makes no call |
| Upload.PaperChunkPrepares | ingestion/upload_to_pinecone.py:75-83 | a chunk of a processed paper is prepared exactly when the paper's title is text, with id the paper's arXiv id, "_chunk_" and the position |
| Download.NormalizeArxivId | ingestion/download_papers.py:83-102 | url id and filename are equal: the prefix of the id before its first 'v' (all of it without a 'v') |
| Download.SplitSecond | ingestion/download_papers.py:114 | the second piece of `split('v')` is the text after the first 'v' up to the next one |
| Download.VersionOf | ingestion/download_papers.py:113-114 | there is a version exactly when the id contains 'v' |
| Download.VersionAfterFirstV | ingestion/download_papers.py:113-114 | the version is the text between the first and the second 'v' (or the end) |
| Download.BaseCandidatesMember | ingestion/download_papers.py:117-131 | under one mirror: the bare id, the own version only if non-empty, v1, and the split path only for 7-character ids without a dot |
| Download.BaseCandidatesLength | ingestion/download_papers.py:117-131 | two to four URLs per mirror, the bare id first |
| Download.CandidatesMember | ingestion/download_papers.py:117-131 | a URL is a candidate exactly when it is a candidate under one of the mirrors |
| Download.CandidatesSnoc | ingestion/download_papers.py:117 | one more mirror appends its candidates |
| Download.CandidatesLength | ingestion/download_papers.py:117-131 | at most four candidates per mirror, the bare id on the first mirror first |
| Download.DedupElements | ingestion/download_papers.py:134-141 | removing repeats loses and adds nothing and does not lengthen the list |
| Download.DedupDistinct | ingestion/download_papers.py:134-141 | the result has no repeats |
| Download.FirstOccurrences | ingestion/download_papers.py:134-141 | the kept positions are positions of the list |
| Download.FirstOccurrencesIncreasing | ingestion/download_papers.py:134-141 | the kept positions increase |
| Download.FirstOccurrencesMember | ingestion/download_papers.py:136-139 | a position is kept exactly when its element does not occur earlier |
| Download.DedupKeepsFirstOccurrences | ingestion/download_papers.py:134-141 | the result lists the first occurrences in their original order |
| Download.DedupFirst | ingestion/download_papers.py:134-141 | the first element stays first |
| Download.DedupSnoc | ingestion/download_papers.py:136-139 | one more element is appended exactly when it was not seen before |
| Download.AppendCandidates | ingestion/download_papers.py:118-131 | one pass of the mirror loop appends that mirror's candidates |
| Download.CandidateUrls | ingestion/download_papers.py:117-131 | the mirror loop produces the candidates of all three mirrors in order |
| Download.RemoveDuplicates | ingestion/download_papers.py:134-141 | the `seen`-set loop removes repeats, keeping first occurrences |
| Download.GetArxivUrls | ingestion/download_papers.py:104-141 | the URLs are the deduplicated candidates |
| Download.ArxivUrlsShape | ingestion/download_papers.py:117-141 | the URLs are distinct, at most 12, and the first is "https://arxiv.org/pdf/" + url id + ".pdf" |
| Download.ArxivUrlsMember | ingestion/download_papers.py:113-131 | a URL is tried exactly when it has one of the candidate forms under one of the mirrors |
| Download.CollectedMember | ingestion/download_papers.py:63-68 | an id is collected exactly when some entry is that string or an object whose arxiv_id is that string |
| Download.SortedDistinct | ingestion/download_papers.py:71-72 | a sorted deduplicated list has no repeats |
| Download.SortedUnique | ingestion/download_papers.py:71-72 | sorting the set of ids leaves no choice: two sorted lists with the same elements are equal |
| Download.InsertSorted | ingestion/download_papers.py:71-72 | inserting keeps the list sorted and adds exactly the new id |
| Download.CollectIds | ingestion/download_papers.py:63-68 | the entry loop collects the arxiv_id of objects that have one and the string entries, in order |
| Download.SortUnique | ingestion/download_papers.py:71-72 | set-then-sort gives the sorted list of the distinct ids, or fails on a value that is not text |
| Download.ExtractArxivIds | ingestion/download_papers.py:51-81 | the result is sorted and duplicate-free; it holds exactly the collected ids; a missing or unparsable file or a non-list gives [] |

## Left out

- Network and file I/O are not modelled. This covers `download_paper`, `_download_with_progress`, `download_all`, `_create_session`, the HTTP requests, file writes and deletes, PDF magic-byte checks, globbing, JSON reading and writing, and the `main()` functions with their argument parsing, prompts and printing.
- Concurrency is not modelled: the thread pool, `as_completed` and the lock-protected progress counters.
- The PDF library is a parameter. `fitz.open`, the page iteration and `doc.metadata` become the sequence of raw page texts and a string map. Metadata values a PDF library reports as absent are not modelled.
- The embedding model (`EmbeddingGenerator`) and `save_chunks_with_embeddings` are not modelled. They call a foreign library, produce floating-point output and average with `np.mean`. Embeddings are opaque values passed through unchanged.
- The remote index is not modelled. `PineconeUploader.__init__` (the API key lookup), `create_index`, `describe_index_stats` and `test_query` talk to the remote index. The index itself is the abstract `VectorIndex`.
- JSON parsing is not modelled. `extract_arxiv_ids_from_json` starts from the parsed value (None when the file is missing or is not JSON), and `process_all_papers` starts from typed paper records. `KeyError`s on missing paper fields are not modelled, and JSON numbers are integers.
- Extract.PageNumberSpan: `\d` is taken as the ASCII digits 0-9. Python's `\d` also matches other Unicode decimal digits.
- Download.ExtractArxivIds: the model gives [] as soon as any collected id is not a string. Python returns the sorted distinct values whenever they are hashable and comparable with each other: only numbers, only booleans, ints mixed with bools or floats, or a lone null. It gives [] only for an unhashable value (a list or an object) or a mix that cannot be compared.
- Chunking.ChunkText: requires chunk_overlap != chunk_size, because a step of 0 makes `range` raise `ValueError`. An overlap larger than the size gives a negative step and no chunks, as in the source. chunk_size is a natural number: a negative chunk size, where the slice end `i + chunk_size` counts from the back of the word list, is not modelled.
- Upload.PrepareVectors: a chunk is a typed record that always has its `text`, `embedding` and `metadata` entries, so the `KeyError` for a missing top-level key is not modelled; only a missing metadata key or a title that is not text can fail.
- Upload.PrepareVector: metadata values are strings or integers. A title that is neither is not modelled; Python would slice a list title.
- Console output is not modelled. This covers the prints in `process_all_papers` (ingestion/chunk_and_embed.py:80 and 85), the error messages of `extract_arxiv_ids_from_json`, the progress lines of the downloader, the embedding and upload methods, and the `tqdm` progress bars. They do not affect what is computed.

## Findings

None recorded.
