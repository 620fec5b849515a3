# RAG pipeline core: chunking, vector records and prompt assembly

This project models, in Dafny, the three pieces of pure logic inside the
Streamlit retrieval-augmented-generation demo `app.py`:

- **Chunking** (`chunk_text`): the document text is split into words the way
  Python's argument-less `str.split()` does (runs of Unicode whitespace are
  separators, leading and trailing whitespace vanish), the words are grouped
  into consecutive slices of `chunk_size` words taken at the positions of
  `range(0, len(words), chunk_size)`, and each slice is joined with single
  spaces. The default chunk size is 500.
- **Vector records** (`add_to_pinecone`): one `(id, embedding, {"text": chunk})`
  triple per chunk, with id `id-<i>` for the chunk's position in the call.
  Embeddings are opaque values of a type parameter.
- **Prompt assembly** (`rag_query`): the texts of the matches the vector store
  returned are joined with line breaks into a context block, which is spliced
  with the literal question into a fixed template.

Modules: `Words` (whitespace and `str.split()`), `Ranges` (Python `range` with a
positive step and its ceiling-division length), `Chunker`, `Decimal` (the
`f"{i}"` rendering of a position and its parser), `Indexer`, `Prompting`,
`Pipeline` (the stages composed), with shared helpers in `Seqs` (`sep.join`,
`s.split(sep)`, flattening) and `Results`.

Points where the code's behaviour shapes the model:

- `chunk_text` builds a list, and the model returns a sequence.
- A zero chunk size makes `range` raise `ValueError` and a negative one gives
  an empty range, so no chunks. `Chunker.ChunkText` models both;
  `Chunker.Chunks` is the positive-size core.
- The code reads `match['metadata']['text']` from each match, which is what
  `Prompting.Match` and `Prompting.MatchTexts` model.

## Model

| member | source | states |
|---|---|---|
| Words.IsSpace | app.py:43 | the characters `str.split()` breaks on: exactly the characters for which Python's `str.isspace()` holds, listed by code point |
| Words.TokenLength | app.py:43 | the length of the leading non-whitespace run: every earlier character is non-whitespace and the character at that position, if any, is whitespace |
| Words.Split | app.py:43 | every piece `str.split()` yields is a non-empty word with no whitespace in it |
| Words.SplitKeepsNonSpace | app.py:43 | concatenating the words gives exactly the non-whitespace characters of the text, in order: only whitespace is dropped |
| Words.SplitEmptyIff | app.py:43 | the split is empty exactly when the text is empty or all whitespace |
| Words.SplitAround | app.py:43 | any whitespace character separates the text into two halves that split independently |
| Words.SplitWord | app.py:43 | a single word splits into itself |
| Words.SplitJoin | app.py:43-44 | splitting undoes `" ".join(words)` for any list of words |
| Words.JoinIsSingleSpaced | app.py:44 | `" ".join` of a non-empty list of words has no leading or trailing whitespace and separates words by exactly one space |
| Words.SingleSpacedIsJoin | app.py:43-44 | a single-spaced string is exactly `" ".join` of its own split |
| Seqs.Join | app.py:44 | `sep.join(parts)`: the parts in order with `sep` between neighbours, the empty list joining to the empty sequence |
| Seqs.JoinIsFirstThenPrefixed | app.py:54 | a non-empty join is the first part followed by every later part with the separator in front of it |
| Ranges.CeilDivBounds | app.py:44 | the length of the range is the least number of strides whose total reaches the word count |
| Ranges.CeilDivIsQuotient | app.py:44 | that length equals `(len + step - 1) // step`, the ceiling of `len / step` |
| Ranges.Range | app.py:44 | `range(start, stop, step)` has ceil((stop - start) / step) elements, starts at `start`, all lie in `[start, stop)`, and the last one is within one step of `stop` |
| Ranges.RangeStep | app.py:44 | neighbouring range elements are one step apart |
| Ranges.RangeElement | app.py:44 | element k of the range is `start + k * step` |
| Ranges.RangeTail | app.py:44 | past its first element, a range is the range that starts one step later |
| Chunker.DefaultChunkSize | app.py:42 | the default `chunk_size` is 500 |
| Chunker.Groups | app.py:44 | there are ceil(len(words) / chunk_size) word slices |
| Chunker.SlicesFrom | app.py:44 | the slices taken at `range(lo, len(words), n)` number ceil((len(words) - lo) / n), one per element of that range (none once `lo` reaches the end) |
| Chunker.SlicesFromIndex | app.py:44 | slice k starts at element k of the range, inside the word list, and runs `n` words or to the end of the list |
| Chunker.GroupSlice | app.py:44 | slice k starts at a range position inside the word list and runs `chunk_size` words or to the end of the list |
| Chunker.GroupSizes | app.py:44 | every slice holds between 1 and `chunk_size` words, and every slice but the last holds exactly `chunk_size` |
| Chunker.GroupSize | app.py:44 | the same for one slice k |
| Chunker.GroupsPartition | app.py:44 | the slices concatenated in order are the word list: nothing dropped, duplicated or reordered |
| Chunker.SlicesFromPartition | app.py:44 | the slices taken from position `lo` on, concatenated in order, are the words from `lo` on |
| Chunker.GroupsAreWords | app.py:43-44 | every slice of a word list holds only words |
| Chunker.Chunks | app.py:42-44 | there are ceil(words / chunk_size) chunks, each is single-spaced, splitting chunk k gives back slice k, and there are none exactly when the text is empty or all whitespace |
| Chunker.ChunkText | app.py:42-44 | a zero chunk size is the `range` error, a negative one yields no chunks, a positive one yields exactly the chunks `Chunker.Chunks` characterises |
| Chunker.ChunksKeepWords | app.py:43-44 | the words of all chunks, concatenated in order, are exactly the words of the text |
| Chunker.ChunksRejoin | app.py:43-44 | joining the chunks with single spaces gives the text with its whitespace normalised |
| Chunker.ChunkSizes | app.py:44 | every chunk holds between 1 and `chunk_size` words, every chunk but the last exactly `chunk_size` |
| Chunker.ChunkBoundary | app.py:44 | exactly `chunk_size` words make one chunk; one word more makes two chunks, the second holding only the extra word |
| Chunker.ChunksHaveNoLineBreak | app.py:44 | no chunk contains a line break |
| Decimal.NatToString | app.py:48 | the rendering of a position is a non-empty string of decimal digits with no leading zero |
| Decimal.ParseNatToString | app.py:48 | parsing the rendering gives back the position |
| Decimal.NatToStringInjective | app.py:48 | distinct positions render differently |
| Indexer.RecordId | app.py:48 | the id of position i is `id-` followed by the decimal rendering of i, and reads back as i |
| Indexer.BuildRecords | app.py:47-48 | one record per chunk; record i carries the id `f"id-{i}"`, which reads back as i, the i-th embedding and chunk i verbatim; ids within one call are pairwise distinct |
| Indexer.TextsOfRecords | app.py:48 | the chunk texts are recoverable verbatim, in order, from the records |
| Indexer.FirstRecordId | app.py:48 | the first record of a call is `id-0` |
| Indexer.IdsRestartEachCall | app.py:48 | two calls both start at `id-0`, so ids are unique only within one call |
| Indexer.Ingest | app.py:89-90 | ingesting a text yields ceil(words / 500) records, none for a blank text; record i holds chunk i of `chunk_text(text)` under the id `f"id-{i}"` with the embedding of its own text; each text is a single-spaced chunk, and the stored texts hold every word of the text in order |
| Prompting.MatchTexts | app.py:54 | one text per match, the match's metadata text, in the store's order |
| Prompting.Context | app.py:54 | no matches give the empty context; otherwise the context is the first text followed by every later text with a line break in front of it; when no match text holds a line break, the lines of the context are the match texts in the store's order |
| Prompting.BuildPrompt | app.py:56-62 | the prompt is the preamble, then the context verbatim, then the question label, then the query verbatim, then the answer cue, and nothing else |
| Prompting.RagPrompt | app.py:54-62 | with no matches the prompt is still produced, with an empty context |
| Prompting.PromptLines | app.py:56-62 | for a query without a line break, line by line, the prompt is the instruction, a blank line, the context's lines, a blank line, `Question: <query>`, `Answer:` and a final empty line |
| Prompting.PromptShape | app.py:56-62 | the prompt cut at the line breaks around the context |
| Prompting.TailLines | app.py:58-62 | for a question without a line break, the part after the context reads as a blank line, the question line, `Answer:` and a final empty line |
| Prompting.InstructionText | app.py:56 | the instruction constant is exactly the template's first line, "Use the following context to answer the question:" |
| Prompting.InstructionIsOneLine | app.py:56 | the instruction holds no line break |
| Prompting.EmptyMatchesPrompt | app.py:54-62 | for a query without a line break, with no matches the prompt's context is a single empty line between the instruction and the question |
| Pipeline.PromptListsMatches | app.py:54-62 | for a query without a line break, match texts without line breaks appear as whole prompt lines, in the store's order, between the instruction and the question |
| Pipeline.IngestedTextsAreOneLine | app.py:44-48 | every stored text is a single line |
| Pipeline.RetrievedChunksAreLines | app.py:44-62 | for a query without a line break, matches whose metadata was stored by any number of uploads into the shared index appear in the prompt as whole lines, in the store's order |
| Pipeline.ShortDocumentIsOneChunk | app.py:43-44 | a document of 1 to `chunk_size` words is one chunk, its normalised text, which is the document itself when it is already single-spaced |
| Pipeline.ShortDocumentIngest | app.py:47-48 | such a document with the default size is upserted as one record `id-0` holding its normalised text |

## Left out

- Pinecone client setup and index creation (app.py:12-23): network I/O against
  an external service; the credential and index settings are configuration.
- The `SentenceTransformer` embedder (app.py:26, 47, 52): a foreign model with
  floating-point output. Embeddings are an opaque type parameter.
- Indexer.Ingest: embeds chunk by chunk through a given function, where the code
  makes one batch `encode` call; the batch call is order-preserving, so only the
  batching itself is not modelled.
- Indexer.BuildRecords: requires at least as many embeddings as chunks; the
  `IndexError` the comprehension would raise otherwise is not modelled, because
  the embedder always returns one vector per chunk.
- `index.upsert` and `index.query` (app.py:49, 53): remote calls. The query
  result is an input sequence of matches; the `top_k` of 3 and the promise that
  at most `top_k` matches come back belong to the store.
- Prompting.Match: every match carries a metadata text. A match without one
  makes app.py:54 raise `KeyError`; the model does not represent such matches,
  because every record `Indexer.Ingest` stores carries its text, and records
  written into the same index by other programs are outside this model.
- `ollama.chat` and returning its answer (app.py:63-66): an external language
  model call.
- PDF and DOCX extraction and the UTF-8 decode (app.py:31-40, 81): thin wrappers
  over libraries that are not shown.
- The Streamlit interface (app.py:71-99): presentation and event plumbing,
  apart from the chunk-then-index sequence of app.py:89-90 that
  `Indexer.Ingest` composes.
- Global uniqueness of ids across uploads: the code does not provide it, and
  `Indexer.IdsRestartEachCall` states the collision instead.
