# ContextualDocumentsSearch: chunking, extraction and ranking

ContextualDocumentsSearch finds the documents of a folder that best match a
request. `TextExtraction` walks the folder recursively and reads every file
into a dict keyed by its path relative to the folder. The reader is chosen by
the file's extension:
- plain text is read as UTF-8;
- Word files go through docx2txt;
- PDFs are read page by page;
- any other file gets the empty string.

`RelevantDocumentsSearch.find_documents` then processes each document in turn:
1. It cuts the text into chunks of about `chunk_length` characters along
   sentence boundaries (`chunk_text_by_sentence`).
2. It normalises every chunk (tokenise, Russian stemming or English
   lemmatisation, punctuation removal).
3. It stores the chunks in a chromadb collection named after the document's
   path (`create_collection`).
4. It asks that collection for the chunk nearest to the normalised request
   (`find_best_chunk`).

Finally the documents are ranked by that best distance, and the paths of the
`results_count` nearest are returned (`extract_rel_doc_paths`).

The Dafny modules follow the source files:

| module | file | models |
|---|---|---|
| `PyText` | py_text.dfy | Python's `str.isspace`, `strip`, `' '.join`, string concatenation |
| `PyDict` | py_dict.dfy | an insertion-ordered Python `dict` as a list of pairs with distinct keys |
| `Chroma` | chroma.dfy | the upsert payload of a collection, and the nearest-neighbour query as a parameter |
| `TextExtration` | text_extration.dfy | src/text_extration.py: the normaliser, the folder walk, the extension dispatch, class `TextExtraction` |
| `ChunkProcessing` | chunk_processing.dfy | src/chunk_processing.py: the sentence split, the greedy packing loop, `find_best_chunk` |
| `Chunking` | chunking.dfy | src/chunking.py: the second copy of the packing loop, proved equal to the first |
| `DocumentSearch` | document_search.dfy | src/document_search.py: collection names, ids and payload, the ranking, class `RelevantDocumentsSearch` |

Code that changes state is modelled as classes with loops:
- the two classes' methods;
- the chunking loop;
- the token loop of the normaliser;
- the page loop of the PDF reader.

Each loop is proved to compute a pure function of its inputs (`ChunkText`,
`Normalize`, `FilesIn`, `ReadAll`, `Upserted`, `TopK`, `Distances`), and the
properties the code promises are proved about those functions.

The outside world enters as values:
- The nltk tokenizer, stemmer and lemmatizer, and the `\w` character class,
  are the fields of a `Toolkit`.
- The file system seen from the main folder is a tree of `Node`s, whose
  entries are in `Path.iterdir` order.
- The three file decoders are a `Decoders` value.
- The chromadb query is a function from a collection and a query text to the
  nearest document and its distance.
- Paths are lists of components, and `str(path)` joins them with `/`.

Where the code behaves differently from what a reader might expect, the model follows the code:
- **Overlap at an overflow.** When a sentence would overflow the current
  chunk, the code appends that sentence to the chunk before emitting it, and
  then starts the next chunk with the same sentence. Neighbouring chunks
  therefore share one sentence, and `current_chunk` at sealing (the chunk
  plus its trailing space) is longer than `n` (`ChunkLength`). The chunk is
  not emitted before the sentence is added.
- **No skipped documents.** Every extracted document gets a collection and a
  distance, including one whose text is empty: the chunker returns `[""]`
  for it, never an empty list.
- **Where the request is normalised.** The request is normalised inside
  `find_best_chunk`, with the same normaliser as the chunks.
- **Collection names can collide.** The collection name is not injective:
  `a/b` and `a.b` both give the collection `a.b` (`NamesCanCollide`), so two
  such documents share one collection.

## Model

| member | source | states |
|---|---|---|
| `PyText.Strip` | src/chunk_processing.py:24 | `strip()` never lengthens the string; what it keeps and what it drops are the three lemmas below |
| `PyText.StripNoEdgeSpace` | src/chunk_processing.py:24 | `strip()` leaves whitespace at neither end, and leaves unchanged a string that has none |
| `PyText.StripIsInfix` | src/chunk_processing.py:24 | `strip()` keeps one contiguous part of the string, starting right after the leading whitespace |
| `PyText.StripRemovesOnlySpaces` | src/chunk_processing.py:24 | everything `strip()` removes, at either end, is whitespace |
| `PyText.StripDropsTrailingSpace` | src/chunk_processing.py:28-29 | the trailing `" "` of the accumulator never shows in a stripped chunk |
| `PyText.JoinSpaceCons` | src/text_extration.py:53 | `' '.join(ws)` (`JoinSpace`, which builds it from the back) read from the front: the first word, one space, then the other words joined |
| `PyDict.Set` | src/document_search.py:53 | `d[k] = v` keeps the keys distinct, keeps a present key in place, appends a new one, leaves other entries alone, and stores `(k, v)` |
| `PyDict.SetKeys` | src/text_extration.py:76 | after `d[k] = v`, the keys are those of `d` plus `k`, and `k` holds `v` |
| `PyDict.FromItemsOfDict` | src/document_search.py:58 | `dict(items)` of the items of a dict gives back the same dict, in the same order |
| `TextExtration.HasCyrillic` | src/text_extration.py:49 | the search succeeds exactly when some character of the token is in `[а-яёА-ЯЁ]` |
| `TextExtration.ProcessAll` | src/text_extration.py:46-52 | one word per token, in order: the Russian stem if the token has a Cyrillic letter, the English lemma otherwise |
| `TextExtration.Clean` | src/text_extration.py:54 | removing `[^\w\s]` never lengthens the text, and leaves only word characters and whitespace |
| `TextExtration.CleanAppend` | src/text_extration.py:54 | the substitution works character by character, so it distributes over concatenation |
| `TextExtration.CleanCounts` | src/text_extration.py:54 | every kept character keeps all its occurrences; every other character loses all of them |
| `TextExtration.CleanKeepsKept` | src/text_extration.py:54 | a text of word characters and whitespace only is left unchanged |
| `TextExtration.CleanIdempotent` | src/text_extration.py:54 | cleaning twice is cleaning once |
| `TextExtration.CleanJoin` | src/text_extration.py:53-54 | cleaning the space-joined words is joining the cleaned words, because the separating spaces survive |
| `TextExtration.Normalize` | src/text_extration.py:40-55 | the normalised text holds only characters the `\w` class accepts, or whitespace |
| `TextExtration.NormalizeDropsPunctuation` | src/text_extration.py:54 | with Python's `\w`, which on ASCII is exactly `[A-Za-z0-9_]`, every ASCII character of the normalised text is a letter, a digit, `_` or whitespace, so `!` never survives (tests/test_text_extration.py:64-70) |
| `TextExtration.NormalizeTokenwise` | src/text_extration.py:47-54 | the normalised text is one cleaned, stemmed or lemmatised word per token, in token order, joined by single spaces |
| `TextExtration.FilesInReaches` | src/text_extration.py:32-38 | `get_paths(folder)` records a path exactly when it lies strictly below the folder and leads through the tree's folders to a file; no folder is ever recorded |
| `TextExtration.FilesUnderReaches` | src/text_extration.py:34-38 | one entry contributes its own path if it is a file, and every file below it if it is a folder |
| `TextExtration.FilesIn` | src/text_extration.py:32-38 | every path `get_paths(folder)` records lies strictly below the folder that was walked |
| `TextExtration.FilesUnder` | src/text_extration.py:34-38 | every path one entry contributes lies strictly below the folder holding the entry |
| `TextExtration.RFind` | src/text_extration.py:59 | the index of the last occurrence of the character, or -1 when it does not occur |
| `TextExtration.Suffix` | src/text_extration.py:59 | `path.suffix` is either empty or the name's tail from its last dot; that tail holds no other dot and is shorter than the name; it is empty exactly when the name ends in a dot or has no dot after its first character |
| `TextExtration.KindOf` | src/text_extration.py:62-75 | plain-text reading exactly for the eight listed suffixes, docx2txt exactly for `.doc`/`.docx`, page reading exactly for `.pdf` |
| `TextExtration.FileText` | src/text_extration.py:59-75 | the text of a file is chosen by its suffix: its UTF-8 contents for the eight plain-text suffixes, docx2txt's text for `.doc` and `.docx`, its pages concatenated in order for `.pdf`, and `""` for any other suffix |
| `TextExtration.Relative` | src/text_extration.py:60 | the relative path appended to the root gives back the full path |
| `TextExtration.ReadAll` | src/text_extration.py:28-29 | reading the recorded files one by one keeps the dict's keys distinct |
| `TextExtration.SetMatches` | src/text_extration.py:76 | storing a file's text under its relative path keeps every value equal to the text of the file at its key |
| `TextExtration.ReadAllKeys` | src/text_extration.py:28-29 | after the reads, a key is present exactly when it was present before or it is the relative path of a read file; unsupported files are included |
| `TextExtration.ReadAllMatches` | src/text_extration.py:28-29 | after the reads, every value is the decoded text of the file at its key |
| `TextExtration.ExtractResult` | src/text_extration.py:21-30 | `extract()` on a fresh object returns exactly the files of the tree, keyed by relative path, each with its text; an empty folder gives `{}` |
| `TextExtration.TextExtraction.constructor` | src/text_extration.py:11-19 | a new extractor has no recorded paths and an empty dict |
| `TextExtration.TextExtraction.LemmatizationAndPunctClean` | src/text_extration.py:40-55 | the token loop followed by join and substitution computes `Normalize(text)` |
| `TextExtration.TextExtraction.GetPaths` | src/text_extration.py:32-38 | the recursive walk appends exactly `FilesIn(folder, entries)` to `full_paths` and leaves `texts` alone |
| `TextExtration.TextExtraction.ReadTextFromFile` | src/text_extration.py:57-76 | `texts[relative_path]` becomes the file's text, chosen by suffix; a PDF is its pages concatenated in order, any other unsupported suffix is `""`; `full_paths` stays the same |
| `TextExtration.TextExtraction.Extract` | src/text_extration.py:21-30 | it records `FilesIn(main folder, tree)`, reads each recorded path in order, and returns the resulting dict |
| `ChunkProcessing.Sentences` | src/chunk_processing.py:18 | `re.split(r'(?<=[.?!])\s+', text)` always yields at least one piece, and the first piece starts the text; the lemmas below state the rest |
| `ChunkProcessing.FirstBoundary` | src/chunk_processing.py:18 | the leftmost position where `(?<=[.?!])\s+` can start: a terminator just before and whitespace at it, with no earlier such position |
| `ChunkProcessing.RunEnd` | src/chunk_processing.py:18 | the greedy `\s+` takes every whitespace character up to the first non-space |
| `ChunkProcessing.SentencesRebuildText` | src/chunk_processing.py:18 | the split loses nothing: the sentences with the matched whitespace between them are the text; each sentence before a match ends in `.`, `?` or `!`; no sentence holds a match |
| `ChunkProcessing.SplitOfInterleave` | src/chunk_processing.py:18 | conversely, sentences and separators of that shape, put together, split back into exactly those sentences |
| `ChunkProcessing.SplitJoin` | src/chunk_processing.py:18 | splitting undoes `' '.join` on sentences that could come out of a split (no match inside, a terminator at the end of all but the last, no whitespace at the start of all but the first) |
| `ChunkProcessing.SentenceThen` | src/chunk_processing.py:18 | a sentence ending with a terminator, followed by whitespace, is split off on its own and the rest is split as if it stood alone |
| `ChunkProcessing.AbbreviationEndsSentence` | tests/test_chunking.py:60-64 | a terminator followed by whitespace ends a sentence even inside an abbreviation: `"Dr."` followed by whitespace is a sentence of its own |
| `ChunkProcessing.AbbreviationSplit` | tests/test_chunking.py:60-62 | the test text "Dr. Smith is here. He will meet you at noon." splits into `"Dr."`, `"Smith is here."` and `"He will meet you at noon."` |
| `ChunkProcessing.AbbreviationExample` | tests/test_chunking.py:60-64 | with `n = 10`, and with any `n` up to 18, the first chunk of that text is exactly "Dr. Smith is here.", so some chunk contains it |
| `ChunkProcessing.PunctuationSplit` | tests/test_chunking.py:42-44 | the test text "Question? Exclamation! Statement. Another one." splits after each of its three terminators into four sentences |
| `ChunkProcessing.ChunksFrom` | src/chunk_processing.py:21-29 | once a chunk is open at sentence `b`, the loop emits at least one chunk and at most one per remaining sentence |
| `ChunkProcessing.Chunks` | src/chunk_processing.py:21-29 | a non-empty list of sentences gives at least one chunk and never more chunks than sentences |
| `ChunkProcessing.ChunkText` | src/chunk_processing.py:17-31 | `chunk_text_by_sentence(text, n)` returns at least one chunk and never more chunks than the text has sentences |
| `ChunkProcessing.NextBreak` | src/chunk_processing.py:22 | the first sentence at which the open chunk overflows, with no overflow before it |
| `ChunkProcessing.ChunkTextBySentence` | src/chunk_processing.py:17-31 | the loop emits exactly `ChunkText(text, n)`, the chunks the spans describe |
| `ChunkProcessing.ChunkLoopSeal` | src/chunk_processing.py:22-25 | at an overflow the emitted chunk contains the overflowing sentence, and the next chunk starts with that same sentence |
| `ChunkProcessing.ChunkLoopGrow` | src/chunk_processing.py:26-27 | a sentence that fits, or any first sentence, joins the open chunk |
| `ChunkProcessing.FirstTwoOverflow` | src/chunk_processing.py:22-25 | when the first two sentences do not fit together, the first chunk is the two of them joined by a space |
| `ChunkProcessing.ChunkLoopEnd` | src/chunk_processing.py:28-29 | after the loop the open chunk is never empty, and it is the last chunk |
| `ChunkProcessing.AccIsJoin` | src/chunk_processing.py:23-27 | the accumulator is the sentences joined by single spaces, followed by one space |
| `ChunkProcessing.Spans` | src/chunk_processing.py:21-29 | the sentence ranges of the chunks start at the first sentence and end with the last one |
| `ChunkProcessing.ChunkCount` | src/chunk_processing.py:21-29 | there is exactly one chunk per span |
| `ChunkProcessing.ChunkOfSpan` | src/chunk_processing.py:23-24 | chunk `j` is the stripped `' '.join` of the sentences of span `j`; no sentence is ever cut |
| `ChunkProcessing.SpanIsGreedy` | src/chunk_processing.py:22-25 | every span but the last ends with the overflowing sentence and holds at least two sentences; the next span starts on that same sentence; no earlier sentence overflowed |
| `ChunkProcessing.EverySentenceInAChunk` | src/chunk_processing.py:21-29 | every sentence belongs to some chunk |
| `ChunkProcessing.NeighboursShareAChunk` | src/chunk_processing.py:22-25 | every two neighbouring sentences share a chunk |
| `ChunkProcessing.FiresIffLong` | src/chunk_processing.py:22 | the overflow test holds exactly when the chunk with the next sentence, plus its trailing space, is longer than `n` |
| `ChunkProcessing.ChunkLength` | src/chunk_processing.py:22-29 | for a chunk closed by an overflow, `current_chunk` at sealing (its sentences joined by spaces, plus the trailing space) is longer than `n`; without its last sentence that accumulator fits in `n` unless the chunk has only two sentences; the accumulator of the last chunk fits unless it holds a single sentence |
| `ChunkProcessing.SingleChunk` | tests/test_chunking.py:10-13 | the text is one chunk exactly when no sentence overflows, and that chunk is all the sentences joined |
| `ChunkProcessing.OneChunkPerSentence` | src/chunk_processing.py:22-25 | when no two neighbouring sentences fit together in `n`, every sentence opens a chunk of its own |
| `ChunkProcessing.ChunksTrimmed` | src/chunk_processing.py:24 | every chunk is stripped at both ends |
| `ChunkProcessing.ChunkTextShape` | tests/test_chunking.py:48-51 | the result is never empty, every chunk is stripped, and the empty text gives `[""]` |
| `ChunkProcessing.PunctuationExample` | tests/test_chunking.py:42-45 | the test text "Question? Exclamation! Statement. Another one." gives exactly four chunks with `n = 10`, and with any `n` up to 22 |
| `ChunkProcessing.FindBestChunk` | src/chunk_processing.py:5-14 | the nearest chunk and its distance, for the request normalised the way the chunks were |
| `Chunking.ChunkTextBySentence` | src/chunking.py:3-21 | the copy in src/chunking.py emits exactly the same chunks as the one in src/chunk_processing.py |
| `DocumentSearch.SplitSep` | src/document_search.py:30 | `re.split(r'[/\\]', s)` always yields at least one piece |
| `DocumentSearch.ReplaceSeps` | src/document_search.py:30-31 | every `/` and `\` becomes a dot, and every other character is kept |
| `DocumentSearch.CollectionName` | src/document_search.py:30-31 | the collection name is the path string with every `/` and `\` replaced by a dot |
| `DocumentSearch.SplitJoinDots` | src/document_search.py:30-31 | splitting on separators and joining with `.` replaces each separator by one dot |
| `DocumentSearch.PathStringSplits` | src/document_search.py:30 | for a path whose components hold no separator, `re.split` takes `str(path)` (`PathString`) apart into exactly its components |
| `DocumentSearch.CollectionNameOfPath` | src/document_search.py:30-31 | such a path's collection is named by its components joined with dots |
| `DocumentSearch.NamesCanCollide` | src/document_search.py:30-32 | two different relative paths, `a/b` and `a.b`, get the same collection name |
| `DocumentSearch.NatToString` | src/document_search.py:39 | `f'{x}'` is a non-empty string of decimal digits with no leading zero |
| `DocumentSearch.ParseNatToString` | src/document_search.py:39 | reading an id back gives its number |
| `DocumentSearch.Ids` | src/document_search.py:39 | the ids are `"0"` to `"n-1"`, in order |
| `DocumentSearch.IdsDistinct` | src/document_search.py:39 | the ids of one upsert are pairwise different |
| `DocumentSearch.NormalizeEach` | src/document_search.py:33-36 | one normalised chunk per chunk, in order |
| `DocumentSearch.Metadatas` | src/document_search.py:40 | every chunk's metadata path is the document's relative path |
| `DocumentSearch.Upserted` | src/document_search.py:29-42 | the collection is named after the path with its separators turned into dots; it has one document, one id and one metadata per chunk; its ids are distinct |
| `DocumentSearch.Insert` | src/document_search.py:58 | inserting into a list sorted by distance keeps it sorted, and adds exactly the new entry |
| `DocumentSearch.SortByDistance` | src/document_search.py:58 | `sorted(..., key=distance)` is sorted by distance and a permutation of its input |
| `DocumentSearch.InsertStable` | src/document_search.py:58 | insertion keeps entries of equal distance in their input order |
| `DocumentSearch.SortStable` | src/document_search.py:58 | the sort is stable: entries of equal distance keep their input order |
| `DocumentSearch.PermutedDict` | src/document_search.py:58 | a permutation of a dict's items is again a dict |
| `DocumentSearch.TopK` | src/document_search.py:58 | `sorted(items, key=distance)[:k]` has `min(k, n)` entries, in non-decreasing distance |
| `DocumentSearch.TopKRanking` | src/document_search.py:57-62 | the ranking has `min(results_count, n)` entries, each from the input and each once, in non-decreasing distance; no entry left out is closer than one kept |
| `DocumentSearch.TopKStable` | src/document_search.py:58 | among entries of equal distance, the ones kept are the first in input order |
| `DocumentSearch.Distances` | src/document_search.py:47-53 | the distances dict keeps its keys distinct |
| `DocumentSearch.DistancesPerDocument` | src/document_search.py:47-53 | the distances dict has exactly the documents' paths as keys, in the documents' order, and each value is that document's best distance (`DocDistance`: the distance `find_best_chunk` returns for the collection `create_collection` builds from the document's chunks, lines 50-52) |
| `DocumentSearch.RelevantDocumentsSearch.constructor` | src/document_search.py:17-24 | the folder, request, chunk length and result count are stored, with defaults 400 and 5 |
| `DocumentSearch.RelevantDocumentsSearch.CreateCollection` | src/document_search.py:29-42 | the upsert sends the normalised chunk `i` with id `str(i)` and metadata path `str(relative_path)`, to the collection named after the path |
| `DocumentSearch.RelevantDocumentsSearch.ExtractRelDocPaths` | src/document_search.py:57-62 | the returned paths are the keys of the `results_count` nearest entries, nearest first |
| `DocumentSearch.RelevantDocumentsSearch.FindDocuments` | src/document_search.py:45-54 | the returned paths are those of the `results_count` extracted documents whose best chunk is nearest the request, nearest first, ties in extraction order |

## Left out

- nltk's `word_tokenize`, the Russian Snowball stemmer, the WordNet lemmatizer and the Unicode `\w` class are uninterpreted fields of `Toolkit`. The normaliser is modelled on top of them, not their internals. The nltk downloads commented out in src/document_search.py:11-13 are not modelled.
- File contents, `docx2txt.process` and PyPDF2's `extract_text` are the uninterpreted fields of `Decoders`. I/O errors, decoding errors and unreadable PDFs are not modelled.
- The file system is a finite tree given by value, and `Path.iterdir` order is the order of its entries. Symbolic links and files that change during the walk are not modelled.
- `TextExtration.TextExtraction.ReadTextFromFile`: requires the path to lie below the main folder, where `relative_to` would raise. `get_paths` only records such paths (`FilesIn`), so the case never arises in `extract`.
- `TextExtration.TextExtraction.Extract` returns the dict as a value. The `.copy()` at src/text_extration.py:30, and the aliasing it prevents, are not modelled.
- Paths print the POSIX way, components joined by `/`. Windows separators, drive letters and case-insensitive comparison are not modelled.
- The chromadb client is not modelled: its persistent storage location, `LOCALAPPDATA`, `os.makedirs` and the SentenceTransformer embedding model.
- `Chroma.Collection` holds only the payload of one `upsert`. It does not model what `get_or_create_collection` keeps from earlier runs or from another document with the same name, how `upsert` merges ids with stored ones, or chromadb's own rules on collection names.
- The nearest-neighbour query is a parameter `Query`. Its errors on an empty or invalid collection are not modelled, and neither is `n_results` beyond the first result.
- Distances are `real`. Floating point and NaN, under which Python's `sorted` is not a total order, are not modelled.
- `DocumentSearch.RelevantDocumentsSearch.constructor`: `results_count` is a `nat`. A negative count, which Python's slice would read from the end, is not modelled.
- The script at src/document_search.py:65-69 is not modelled: the `documents` folder and the hard-coded request it runs at import time.
- src/find_best_function.py (its `Find_best_chunk`), src/create_collection.py, src/main.py and src/ui/layout.py are not part of this model.
