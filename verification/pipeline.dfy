/** The ingestion and query stages put together: chunks stored by `Ingest` come
    back as whole lines of the prompt `rag_query` builds, and short documents
    become one chunk. */
module Pipeline {
  import opened Seqs
  import opened Words
  import opened Ranges
  import opened Chunker
  import opened Indexer
  import opened Prompting

  /** When no match text holds a line break, the prompt lists the match texts as
      lines of their own, in the store's order, between the instruction and the
      question. */
  lemma PromptListsMatches<S>(query: string, matches: seq<Match<S>>)
    requires '\n' !in query
    requires |matches| >= 1
    requires forall i :: 0 <= i < |matches| ==> '\n' !in matches[i].metadata.text
    ensures SplitOn('\n', RagPrompt(query, matches))
         == [Instruction, ""] + MatchTexts(matches) + ["", "Question: " + query, "Answer:", ""]
  {
    PromptLines(Context(MatchTexts(matches)), query);
  }

  /** Every text `Ingest` stores is a single line. */
  lemma IngestedTextsAreOneLine<V>(text: string, embed: string -> V)
    ensures forall i :: 0 <= i < |Ingest(text, embed)| ==> '\n' !in Ingest(text, embed)[i].metadata.text
  {
    ChunksHaveNoLineBreak(text, DefaultChunkSize);
  }

  /** Matches whose metadata was stored by `Ingest`, in any of several uploads
      into the one shared index, appear in the prompt as whole lines, in the
      store's order. */
  lemma RetrievedChunksAreLines<V, S>(uploads: seq<string>, embed: string -> V, query: string, matches: seq<Match<S>>)
    requires '\n' !in query
    requires |matches| >= 1
    requires forall i :: 0 <= i < |matches| ==>
      exists u, j :: 0 <= u < |uploads| && 0 <= j < |Ingest(uploads[u], embed)|
        && matches[i].metadata == Ingest(uploads[u], embed)[j].metadata
    ensures SplitOn('\n', RagPrompt(query, matches))
         == [Instruction, ""] + MatchTexts(matches) + ["", "Question: " + query, "Answer:", ""]
  {
    forall i | 0 <= i < |matches|
      ensures '\n' !in matches[i].metadata.text
    {
      var u, j :| 0 <= u < |uploads| && 0 <= j < |Ingest(uploads[u], embed)|
        && matches[i].metadata == Ingest(uploads[u], embed)[j].metadata;
      IngestedTextsAreOneLine(uploads[u], embed);
    }
    PromptListsMatches(query, matches);
  }

  /** A document of 1 to `n` words is a single chunk: its words joined by
      single spaces, which is the document itself when it is already
      single-spaced. */
  lemma ShortDocumentIsOneChunk(text: string, n: nat)
    requires n >= 1
    requires 1 <= |Split(text)| <= n
    ensures Chunks(text, n) == [Join(" ", Split(text))]
    ensures SingleSpaced(text) ==> Chunks(text, n) == [text]
  {
    ShortListIsOneGroup(Split(text), n);
    if SingleSpaced(text) {
      SingleSpacedIsJoin(text);
    }
  }

  /** A list of 1 to `n` words is one group: the whole list. */
  lemma ShortListIsOneGroup<T>(words: seq<T>, n: nat)
    requires n >= 1
    requires 1 <= |words| <= n
    ensures Groups(words, n) == [words]
  {
    CeilDivBounds(|words|, n);
    GroupSlice(words, n, 0);
    assert words[0..|words|] == words;
  }

  /** Ingesting a document of 1 to the default chunk size in words upserts
      exactly one record, `id-0`, whose text is the document with its whitespace
      normalised. */
  lemma ShortDocumentIngest<V>(text: string, embed: string -> V)
    requires 1 <= |Split(text)| <= DefaultChunkSize
    ensures |Ingest(text, embed)| == 1
    ensures Ingest(text, embed)[0].id == "id-0"
    ensures Ingest(text, embed)[0].metadata.text == Join(" ", Split(text))
  {
    ShortDocumentIsOneChunk(text, DefaultChunkSize);
    FirstRecordId();
  }
}
