# simple_RAG_system: the text pipeline around the vector index

This Dafny project models the text-handling core of a small
retrieval-augmented-generation system written in Python:

- **Chunker** (`chunker.dfy`, module `Chunker`): `chunk_text` splits a text
  into overlapping windows. A cursor starts at 0. Each step emits
  `text[start:start+chunk_size]`, clamped to the end of the text, and moves
  the cursor to `start + chunk_size - overlap`. The loop is the method
  `ChunkText`. It is proved equal to the recursive specification `Chunks`.
  The lemmas give the closed form, the chunk lengths, the shared overlap,
  where the last chunk ends, and how the text is rebuilt.
- **Document loader** (`load_docs.dfy`, module `LoadDocs`): `load_documents`
  picks a reader by lower-cased extension (`.pdf`, then `.txt`/`.md`) and
  skips everything else, keeping the listing order. `load_pdf` concatenates
  page texts, and a page without text counts as `""`.
- **Index build** (`build_index.dfy`, module `BuildIndex`): `build_faiss_index`
  chunks every document and fills `all_chunks` and `chunk_sources` in
  lockstep. It embeds the chunks in order and takes the index dimension from
  the first embedding. The model proves that the two lists stay aligned and
  that index row `i` is the embedding of metadata entry `i`.
- **Retrieval and prompt** (`rag_answer.dfy`, module `RagAnswer`):
  `retrieve_chunks` maps the indices FAISS ranked to chunk texts.
  `build_rag_prompt` joins the chunks with `"\n\n---\n\n"`, fills the fixed
  template and strips it.
- `wrappers.dfy` (module `Wrappers`) holds `Option` and `Result`.

Text positions are characters (Unicode scalar values), as in Python `str`.

Two consequences of the code are worth stating, because a reader of
`chunk_text` could expect otherwise:
- The loop emits `ceil(L / step)` chunks for a text of length `L`, with
  `step = chunk_size - overlap`: it keeps going while the cursor is inside the
  text, even when the previous window already reached the end. For L = 10,
  chunk size 5 and overlap 2 that is 4 chunks, and the fourth lies entirely
  inside the third (`Chunker.TrailingChunkInsidePrevious`).
- `overlap` is never validated. For `overlap >= chunk_size` the loop never
  ends on non-empty text (`Chunker.CursorStalls`). The model makes
  `overlap < chunk_size` a precondition of the chunker.

## Model

| member | source | states |
|---|---|---|
| `Chunker.ChunkText` | chunker.py:1-12 | The while loop terminates (measure `len(text) - start`) for `0 <= overlap < chunk_size` (defaults 500 and 50). It returns exactly `Chunks(text)`: ceil(L / (chunk_size - overlap)) chunks, chunk `i` being `text[i*step : min(i*step + chunk_size, L)]` |
| `Chunker.ChunksFromCount` | chunker.py:5-10 | From cursor `start` the loop emits ceil((L - start) / step) chunks, and none once the cursor is past the text |
| `Chunker.ChunksFromAt` | chunker.py:6-10 | Chunk `j` emitted from cursor `start` is the clamped window at `start + j*step`, and that position is inside the text |
| `Chunker.ChunksClosedForm` | chunker.py:3-10 | The chunk count is ceil(L / step), and chunk `i` equals the reference window `Window(i)` starting at `i*step` |
| `Chunker.FirstChunk` | chunker.py:2-7 | Empty text gives no chunks (and only empty text does); otherwise chunk 0 starts at position 0 |
| `Chunker.ChunkLengths` | chunker.py:5-7 | Every chunk is non-empty and at most `chunk_size` long |
| `Chunker.ConsecutiveOverlap` | chunker.py:6-10 | If chunk `i` has full length and chunk `i+1` exists, the last `overlap` characters of chunk `i` are the first `overlap` characters of chunk `i+1` |
| `Chunker.LastChunkFrom` | chunker.py:5-10 | The last chunk emitted from any cursor inside the text is the suffix of the text starting at that chunk's cursor |
| `Chunker.LastChunkEndsAtText` | chunker.py:5-10 | For non-empty text the last chunk ends exactly at `len(text)` |
| `Chunker.FreshFrom` | chunker.py:6-10 | After a window ending at `start + overlap`, the later chunks with their overlap dropped give exactly the rest of the text |
| `Chunker.RebuildText` | chunker.py:6-10 | Chunk 0 followed by every later chunk minus its first `overlap` characters (all of it when shorter) rebuilds the text exactly |
| `Chunker.TrailingChunkInsidePrevious` | chunker.py:5-10 | For L = 10, size 5, overlap 2 the chunks are `abcde`, `defgh`, `ghij`, `j`: a trailing chunk inside the previous one is emitted |
| `Chunker.CursorStalls` | chunker.py:5-10 | With `overlap >= chunk_size` the cursor never exceeds 0, so for non-empty text the loop guard holds after every number of iterations |
| `Chunker.CursorAdvances` | chunker.py:3-10 | With a valid configuration the cursor after `n` iterations is `n * (chunk_size - overlap)` |
| `LoadDocs.Lower` | load_docs.py:10 | ASCII lower-casing keeps the length and lower-cases each character |
| `LoadDocs.LowerIdempotent` | load_docs.py:10 | Lower-casing twice is lower-casing once |
| `LoadDocs.KindIgnoresCase` | load_docs.py:10-12 | The extension dispatch gives the same answer for a name and its lower-cased form |
| `LoadDocs.KindCases` | load_docs.py:10-16 | A file is kept iff its lower-cased name ends with `.pdf`, `.txt` or `.md`; it goes to the PDF reader iff it ends with `.pdf` |
| `LoadDocs.UpperCasePdf` | load_docs.py:10 | `A.PDF` is read as a PDF |
| `LoadDocs.UpperCaseMarkdown` | load_docs.py:12 | `notes.MD` is read as text |
| `LoadDocs.LoadPdf` | load_docs.py:25-30 | The accumulation loop returns the page texts concatenated in page order, a `None` page giving `""` |
| `LoadDocs.PageTextAppend` | load_docs.py:27-30 | The text of two runs of pages is the text of the first followed by the text of the second |
| `LoadDocs.NonePageIsEmpty` | load_docs.py:27-30 | A page without text changes nothing; zero pages give `""` |
| `LoadDocs.LoadDocuments` | load_docs.py:4-23 | The listing loop returns `Loaded(listing)` and never more documents than listed files |
| `LoadDocs.LoadedAppend` | load_docs.py:7-21 | Loading a listing is loading its parts one after the other, so the listing order is kept |
| `LoadDocs.LoadedSingle` | load_docs.py:10-21 | One listed file gives one document named by the listed name (not the joined path) with the PDF or text reader's output, or nothing if unsupported |
| `LoadDocs.LoadedNames` | load_docs.py:7-21 | A name appears among the documents iff it was listed and its extension is supported |
| `BuildIndex.CollectChunks` | build_index.py:14-25 | The nested loops give `all_chunks` = the documents' chunk lists concatenated in order, and `chunk_sources` of equal length with `chunk_sources[i].text == all_chunks[i]` |
| `BuildIndex.EmbedTexts` | embedder.py:9-24 | One embedding per text, in the same order: `embeddings[i] == embed(texts[i])` |
| `BuildIndex.BuildFaissIndex` | build_index.py:14-42 | No chunks is an error (`embeddings[0]` fails); embeddings of unequal width are an error; otherwise row `i` is the embedding of `chunk_sources[i].text`, the dimension is the first row's width and every row has it |
| `BuildIndex.AllChunksAppend` | build_index.py:18-21 | The chunks of two runs of documents are the first run's followed by the second's |
| `BuildIndex.AllSourcesAppend` | build_index.py:18-25 | The same for the metadata entries |
| `BuildIndex.SourcesAligned` | build_index.py:20-25 | `chunk_sources` and `all_chunks` have equal length and entry `i` carries chunk `i`'s text |
| `BuildIndex.Provenance` | build_index.py:18-25 | Chunk `j` of document `d` is at position `Offset(d) + j` of both lists, with document `d`'s filename |
| `BuildIndex.EmptyDocumentContributesNothing` | build_index.py:18-20 | A document with empty text adds no entries |
| `BuildIndex.SourcesComeFromDocuments` | build_index.py:21-24 | Every metadata entry names an input document and carries one of that document's chunks |
| `RagAnswer.StripLeading` | rag_answer.py:55 | Leading whitespace is removed: the result is a suffix, only whitespace was dropped, and it does not start with whitespace |
| `RagAnswer.StripTrailing` | rag_answer.py:55 | Trailing whitespace is removed: the result is a prefix, only whitespace was dropped, and it does not end with whitespace |
| `RagAnswer.StripFraming` | rag_answer.py:40-55 | Stripping a text framed by one newline on each side, whose own ends are not whitespace, gives back the text |
| `RagAnswer.BodyEnds` | rag_answer.py:40-53 | The template body begins with `Y` and ends with `.`, whatever the context and question |
| `RagAnswer.BuildRagPrompt` | rag_answer.py:37-55 | The stripped prompt is the template body with the joined context and the question in place: stripping removes only the template's own framing newlines |
| `RagAnswer.JoinDegenerate` | rag_answer.py:38 | No chunks give an empty context; one chunk is the context unchanged |
| `RagAnswer.JoinSplit` | rag_answer.py:38 | The context is the chunks before position `i`, one separator, then the chunks from `i` on: ranked order, one separator between neighbours |
| `RagAnswer.JoinLength` | rag_answer.py:38 | The context's length is the chunks' total length plus one separator per gap |
| `RagAnswer.PromptFraming` | rag_answer.py:40-55 | The prompt begins with `You are an assistant that answers questions using ONLY...` and ends with `- Be concise and clear.` |
| `RagAnswer.PromptContext` | rag_answer.py:43-46 | The context sits right after `\n\nCONTEXT:\n` and right before `\n\nQUESTION:\n` |
| `RagAnswer.PromptQuestion` | rag_answer.py:46-49 | The question sits right after `\n\nQUESTION:\n` and right before `\n\nRULES:\n` |
| `RagAnswer.PromptHasSentinel` | rag_answer.py:51 | The prompt always contains `I don't know.` |
| `RagAnswer.RetrieveChunks` | rag_answer.py:24-34 | One text per returned index, in the order given: element `j` is `chunks[indices[j]].text`; `top_k` defaults to 3 |
| `RagAnswer.AnswerPrompt` | rag_answer.py:57-62 | `answer_question` retrieves exactly 3 chunks and sends the prompt built from their texts, in rank order |

## Left out

- OpenAI calls: the embedding of chunks and queries is a function parameter
  `string -> seq<real>`. The chat completion that turns the prompt into an
  answer is not modelled; `AnswerPrompt` stops at the prompt.
- FAISS: `IndexFlatL2`, `add`, `search`, `write_index` and `read_index` are a
  foreign library with float32 arithmetic. The built index is the rows it
  would hold and its dimension. The indices `search` returns for a query are
  an input of `RetrieveChunks`.
- `BuildIndex.BuildFaissIndex`: embeddings of unequal width fail in numpy's
  matrix conversion or in FAISS's dimension check. The model reports both as
  one error, `RaggedEmbeddings`. Embeddings are `real`, not float32.
- `RagAnswer.RetrieveChunks` and `RagAnswer.AnswerPrompt`: require every
  index to lie in `0 <= idx < len(chunks)`. FAISS pads missing results with
  `-1`, and Python would then silently read the last chunk. That wrap-around
  is not modelled.
- Pickle, file I/O and PDF parsing: `os.listdir`, UTF-8 reading and
  `PdfReader.extract_text` are inputs (`listing`, `readText`, `pdfPages`).
  The readers are keyed by the listed name rather than by
  `os.path.join(folder, name)`. Nothing is written to disk.
- `LoadDocs.Lower`: lower-cases ASCII letters only, not full Unicode `str.lower()`.
- `Chunker.ChunkText`: requires `0 <= overlap < chunk_size`. The source does
  not check this. For `overlap >= chunk_size` it loops forever on non-empty
  text; `Chunker.CursorStalls` states that case instead. A negative `overlap`
  with a positive `chunk_size` is excluded by the `nat` parameters, although
  the source accepts it: the cursor then advances by more than `chunk_size`,
  the loop ends, and the windows leave gaps of `-overlap` characters, so
  those characters are dropped and `Chunker.RebuildText` does not hold there.
  A negative `chunk_size` would bring Python's negative slice indices into
  play; that is not modelled either.
- query.py is not part of this model. It repeats `retrieve_chunks` with the
  distances kept, plus command-line printing.
- Printing, `load_dotenv`, module-level globals and the 400-character
  display truncation are not modelled.
