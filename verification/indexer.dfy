/** The vector records `add_to_pinecone` hands to the store: one
    `(id, embedding, {"text": chunk})` triple per chunk, with the id `id-<i>`
    for the chunk's position `i` in this call. Embeddings are opaque values of
    type `V`; the embedding model and the upsert itself are not modelled. */
module Indexer {
  import opened Results
  import opened Seqs
  import opened Words
  import opened Ranges
  import opened Decimal
  import opened Chunker

  /** The metadata dictionary stored with a vector: `{"text": chunk}`. */
  datatype Metadata = Metadata(text: string)

  /** One upserted triple. */
  datatype VectorRecord<V> = VectorRecord(id: string, values: V, metadata: Metadata)

  const IdPrefix: string := "id-"

  /** `f"id-{i}"`: the prefix followed by the decimal rendering of `i`, which
      reads back as `i`. */
  function RecordId(i: nat): (id: string)
    ensures id == IdPrefix + NatToString(i)
    ensures ParseRecordId(id) == Some(i)
  {
    var digits := NatToString(i);
    var id := IdPrefix + digits;
    assert id[|IdPrefix|..] == digits;
    ParseNatToString(i);
    id
  }

  /** Reads the position back out of an id of the form `id-<digits>`. */
  function ParseRecordId(id: string): Option<nat>
  {
    if |id| > |IdPrefix| && id[..|IdPrefix|] == IdPrefix && AllDigits(id[|IdPrefix|..])
    then Some(ParseNat(id[|IdPrefix|..]))
    else None
  }

  /** The list comprehension of `add_to_pinecone`: one record per chunk, whose id
      names its position, whose vector is the embedding at that position and
      whose metadata text is the chunk verbatim; ids are pairwise distinct. */
  function BuildRecords<V>(chunks: seq<string>, embeddings: seq<V>): (records: seq<VectorRecord<V>>)
    requires |chunks| <= |embeddings|
    ensures |records| == |chunks|
    ensures forall i :: 0 <= i < |records| ==> records[i].id == RecordId(i)
    ensures forall i :: 0 <= i < |records| ==> ParseRecordId(records[i].id) == Some(i)
    ensures forall i, j :: 0 <= i < j < |records| ==> records[i].id != records[j].id
    ensures forall i :: 0 <= i < |records| ==>
      records[i].values == embeddings[i] && records[i].metadata.text == chunks[i]
  {
    seq(|chunks|, i requires 0 <= i < |chunks| =>
      VectorRecord(RecordId(i), embeddings[i], Metadata(chunks[i])))
  }

  /** The stored texts, in record order. */
  function Texts<V>(records: seq<VectorRecord<V>>): seq<string>
  {
    seq(|records|, i requires 0 <= i < |records| => records[i].metadata.text)
  }

  /** Chunks are recoverable verbatim from the records built for them. */
  lemma TextsOfRecords<V>(chunks: seq<string>, embeddings: seq<V>)
    requires |chunks| <= |embeddings|
    ensures Texts(BuildRecords(chunks, embeddings)) == chunks
  {
  }

  /** The first record of a call is always `id-0`. */
  lemma FirstRecordId()
    ensures RecordId(0) == "id-0"
  {
    assert NatToString(0) == "0";
  }

  /** Ids are scoped to one call: every call numbers its records from `id-0`, so
      the first record of any two calls share an id. */
  lemma IdsRestartEachCall<V>(chunks1: seq<string>, embeddings1: seq<V>,
                              chunks2: seq<string>, embeddings2: seq<V>)
    requires 1 <= |chunks1| <= |embeddings1|
    requires 1 <= |chunks2| <= |embeddings2|
    ensures BuildRecords(chunks1, embeddings1)[0].id == BuildRecords(chunks2, embeddings2)[0].id == "id-0"
  {
    FirstRecordId();
  }

  /** Ingestion of one uploaded text: chunk it with the default size, embed
      every chunk with `embed`, and build the records to upsert. There is one
      record per chunk, no record for a blank text, record `i` holds chunk `i`
      under the id of position `i` with the embedding of its own text, every
      record's text is a single-spaced chunk, and the stored texts together hold
      every word of the document in order. */
  function Ingest<V>(text: string, embed: string -> V): (records: seq<VectorRecord<V>>)
    ensures |records| == CeilDiv(|Split(text)|, DefaultChunkSize)
    ensures forall i :: 0 <= i < |records| ==>
      && records[i].id == RecordId(i)
      && records[i].values == embed(records[i].metadata.text)
      && records[i].metadata.text == Chunks(text, DefaultChunkSize)[i]
    ensures records == [] <==> AllSpace(text)
    ensures forall i :: 0 <= i < |records| ==> SingleSpaced(records[i].metadata.text)
    ensures Flatten(seq(|records|, i requires 0 <= i < |records| => Split(records[i].metadata.text)))
         == Split(text)
  {
    var chunks := Chunks(text, DefaultChunkSize);
    var records := BuildRecords(chunks, seq(|chunks|, i requires 0 <= i < |chunks| => embed(chunks[i])));
    ChunksKeepWords(text, DefaultChunkSize);
    assert seq(|records|, i requires 0 <= i < |records| => Split(records[i].metadata.text))
        == seq(|chunks|, k requires 0 <= k < |chunks| => Split(chunks[k]));
    records
  }
}
