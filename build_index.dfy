/** The index build of build_index.py: every document is chunked, the chunk
    texts are collected in `all_chunks` and, in lockstep, their metadata in
    `chunk_sources`; the texts are embedded in order and the vector index is
    built with the dimension of the first embedding.

    The embedding model is the parameter `embed`, a function from a text to
    its vector; embedding a list maps it over the list in order. The FAISS
    index is represented by the rows it would hold and its dimension. */
module BuildIndex {
  import opened Wrappers
  import Chunker
  import opened LoadDocs

  type Vector = seq<real>

  /** One entry of the pickled metadata: `{"filename": ..., "text": ...}`. */
  datatype ChunkSource = ChunkSource(filename: string, text: string)

  /** Row `i` of `index` is the embedding of `sources[i].text`. */
  datatype FlatIndex = FlatIndex(dim: nat, rows: seq<Vector>)

  datatype BuiltIndex = BuiltIndex(index: FlatIndex, sources: seq<ChunkSource>)

  datatype BuildError =
    | NoChunks           // `embeddings[0]` on an empty list
    | RaggedEmbeddings   // the embeddings do not form a matrix of width `dim`

  /** The chunk texts one document contributes. */
  function DocChunks(doc: Document, chunkSize: nat, overlap: nat): seq<string>
    requires overlap < chunkSize
  {
    Chunker.Chunks(doc.text, chunkSize, overlap)
  }

  /** The metadata entries one document contributes. */
  function DocSources(doc: Document, chunkSize: nat, overlap: nat): seq<ChunkSource>
    requires overlap < chunkSize
  {
    var cs := DocChunks(doc, chunkSize, overlap);
    seq(|cs|, i requires 0 <= i < |cs| => ChunkSource(doc.filename, cs[i]))
  }

  /** `all_chunks` after the documents `docs` have been processed. */
  function AllChunks(docs: seq<Document>, chunkSize: nat, overlap: nat): seq<string>
    requires overlap < chunkSize
  {
    if docs == [] then []
    else AllChunks(docs[..|docs| - 1], chunkSize, overlap) + DocChunks(docs[|docs| - 1], chunkSize, overlap)
  }

  /** `chunk_sources` after the documents `docs` have been processed. */
  function AllSources(docs: seq<Document>, chunkSize: nat, overlap: nat): seq<ChunkSource>
    requires overlap < chunkSize
  {
    if docs == [] then []
    else AllSources(docs[..|docs| - 1], chunkSize, overlap) + DocSources(docs[|docs| - 1], chunkSize, overlap)
  }

  /** Position of the first chunk of `docs[d]` in `all_chunks`. */
  function Offset(docs: seq<Document>, d: nat, chunkSize: nat, overlap: nat): nat
    requires overlap < chunkSize
    requires d <= |docs|
  {
    |AllChunks(docs[..d], chunkSize, overlap)|
  }

  /** Lines 14-25: the nested loops that fill `all_chunks` and
      `chunk_sources` side by side. */
  method CollectChunks(docs: seq<Document>, chunkSize: nat, overlap: nat)
    returns (allChunks: seq<string>, chunkSources: seq<ChunkSource>)
    requires overlap < chunkSize
    ensures allChunks == AllChunks(docs, chunkSize, overlap)
    ensures chunkSources == AllSources(docs, chunkSize, overlap)
    ensures |allChunks| == |chunkSources|
    ensures forall i :: 0 <= i < |allChunks| ==> chunkSources[i].text == allChunks[i]
  {
    allChunks, chunkSources := [], [];
    for d := 0 to |docs|
      invariant allChunks == AllChunks(docs[..d], chunkSize, overlap)
      invariant chunkSources == AllSources(docs[..d], chunkSize, overlap)
      invariant |allChunks| == |chunkSources|
    {
      var doc := docs[d];
      assert docs[..d + 1][..d] == docs[..d];
      var chunks := Chunker.ChunkText(doc.text, chunkSize, overlap);
      for j := 0 to |chunks|
        invariant allChunks == AllChunks(docs[..d], chunkSize, overlap) + chunks[..j]
        invariant chunkSources == AllSources(docs[..d], chunkSize, overlap)
                                  + DocSources(doc, chunkSize, overlap)[..j]
        invariant |allChunks| == |chunkSources|
      {
        allChunks := allChunks + [chunks[j]];
        chunkSources := chunkSources + [ChunkSource(doc.filename, chunks[j])];
        assert DocSources(doc, chunkSize, overlap)[..j + 1]
               == DocSources(doc, chunkSize, overlap)[..j] + [ChunkSource(doc.filename, chunks[j])];
      }
      assert chunks[..|chunks|] == chunks;
    }
    assert docs[..|docs|] == docs;
    SourcesAligned(docs, chunkSize, overlap);
  }

  /** embedder.py's `embed_texts`: one call per text, appended in order. */
  method EmbedTexts(embed: string -> Vector, texts: seq<string>) returns (embeddings: seq<Vector>)
    ensures |embeddings| == |texts|
    ensures forall i :: 0 <= i < |texts| ==> embeddings[i] == embed(texts[i])
  {
    embeddings := [];
    for i := 0 to |texts|
      invariant |embeddings| == i
      invariant forall k :: 0 <= k < i ==> embeddings[k] == embed(texts[k])
    {
      embeddings := embeddings + [embed(texts[i])];
    }
  }

  /** Every row has the dimension `dim`. */
  predicate Rectangular(rows: seq<Vector>, dim: nat)
  {
    forall i :: 0 <= i < |rows| ==> |rows[i]| == dim
  }

  /** Lines 14-42: chunk, embed, take the dimension from the first embedding
      and add the matrix to a flat index. What lines 45-48 would write to
      disk is the returned index and metadata. */
  method BuildFaissIndex(docs: seq<Document>, embed: string -> Vector, chunkSize: nat := 500, overlap: nat := 50)
    returns (r: Result<BuiltIndex, BuildError>)
    requires overlap < chunkSize
    ensures AllChunks(docs, chunkSize, overlap) == [] <==> r == Failure(NoChunks)
    ensures r.Success? <==>
              AllChunks(docs, chunkSize, overlap) != [] &&
              forall i :: 0 <= i < |AllChunks(docs, chunkSize, overlap)| ==>
                |embed(AllChunks(docs, chunkSize, overlap)[i])|
                == |embed(AllChunks(docs, chunkSize, overlap)[0])|
    ensures r.Success? ==>
              var built := r.value;
              built.sources == AllSources(docs, chunkSize, overlap) &&
              |built.index.rows| == |built.sources| > 0 &&
              built.index.dim == |built.index.rows[0]| &&
              Rectangular(built.index.rows, built.index.dim) &&
              forall i :: 0 <= i < |built.sources| ==>
                built.index.rows[i] == embed(built.sources[i].text)
  {
    var allChunks, chunkSources := CollectChunks(docs, chunkSize, overlap);
    var embeddings := EmbedTexts(embed, allChunks);
    if |embeddings| == 0 {
      return Failure(NoChunks);
    }
    var dim := |embeddings[0]|;
    if !Rectangular(embeddings, dim) {
      return Failure(RaggedEmbeddings);
    }
    r := Success(BuiltIndex(FlatIndex(dim, embeddings), chunkSources));
  }

  // ---------------------------------------------------------------------
  // Properties of the flattening

  /** Processing two runs of documents one after the other. */
  lemma {:induction false} AllChunksAppend(a: seq<Document>, b: seq<Document>, chunkSize: nat, overlap: nat)
    requires overlap < chunkSize
    ensures AllChunks(a + b, chunkSize, overlap)
            == AllChunks(a, chunkSize, overlap) + AllChunks(b, chunkSize, overlap)
    decreases |b|
  {
    if b == [] {
      assert a + b == a;
    } else {
      var b' := b[..|b| - 1];
      assert (a + b)[..|a + b| - 1] == a + b';
      assert (a + b)[|a + b| - 1] == b[|b| - 1];
      AllChunksAppend(a, b', chunkSize, overlap);
    }
  }

  lemma {:induction false} AllSourcesAppend(a: seq<Document>, b: seq<Document>, chunkSize: nat, overlap: nat)
    requires overlap < chunkSize
    ensures AllSources(a + b, chunkSize, overlap)
            == AllSources(a, chunkSize, overlap) + AllSources(b, chunkSize, overlap)
    decreases |b|
  {
    if b == [] {
      assert a + b == a;
    } else {
      var b' := b[..|b| - 1];
      assert (a + b)[..|a + b| - 1] == a + b';
      assert (a + b)[|a + b| - 1] == b[|b| - 1];
      AllSourcesAppend(a, b', chunkSize, overlap);
    }
  }

  /** The two lists stay aligned: same length, and entry `i` of the
      metadata carries the text of chunk `i`. */
  lemma {:induction false} SourcesAligned(docs: seq<Document>, chunkSize: nat, overlap: nat)
    requires overlap < chunkSize
    ensures |AllSources(docs, chunkSize, overlap)| == |AllChunks(docs, chunkSize, overlap)|
    ensures forall i :: 0 <= i < |AllChunks(docs, chunkSize, overlap)| ==>
              AllSources(docs, chunkSize, overlap)[i].text == AllChunks(docs, chunkSize, overlap)[i]
  {
    if docs != [] {
      SourcesAligned(docs[..|docs| - 1], chunkSize, overlap);
    }
  }

  /** Chunk `j` of document `d` sits at position `Offset(d) + j` of both lists,
      and its metadata names that document's file: documents in order, then
      chunks in order within each document. */
  lemma Provenance(docs: seq<Document>, d: nat, j: nat, chunkSize: nat, overlap: nat)
    requires overlap < chunkSize
    requires d < |docs|
    requires j < |DocChunks(docs[d], chunkSize, overlap)|
    ensures var k := Offset(docs, d, chunkSize, overlap) + j;
            k < |AllChunks(docs, chunkSize, overlap)| &&
            AllChunks(docs, chunkSize, overlap)[k] == DocChunks(docs[d], chunkSize, overlap)[j] &&
            k < |AllSources(docs, chunkSize, overlap)| &&
            AllSources(docs, chunkSize, overlap)[k]
              == ChunkSource(docs[d].filename, DocChunks(docs[d], chunkSize, overlap)[j])
  {
    var pre, upTo, post := docs[..d], docs[..d + 1], docs[d + 1..];
    assert upTo[..|upTo| - 1] == pre;
    assert upTo[|upTo| - 1] == docs[d];
    assert AllChunks(upTo, chunkSize, overlap)
           == AllChunks(pre, chunkSize, overlap) + DocChunks(docs[d], chunkSize, overlap);
    assert AllSources(upTo, chunkSize, overlap)
           == AllSources(pre, chunkSize, overlap) + DocSources(docs[d], chunkSize, overlap);
    assert docs == upTo + post;
    AllChunksAppend(upTo, post, chunkSize, overlap);
    AllSourcesAppend(upTo, post, chunkSize, overlap);
    SourcesAligned(pre, chunkSize, overlap);
  }

  /** A document whose text is empty contributes no entries. */
  lemma EmptyDocumentContributesNothing(docs: seq<Document>, d: nat, chunkSize: nat, overlap: nat)
    requires overlap < chunkSize
    requires d < |docs|
    requires docs[d].text == []
    ensures AllChunks(docs, chunkSize, overlap) == AllChunks(docs[..d] + docs[d + 1..], chunkSize, overlap)
    ensures AllSources(docs, chunkSize, overlap) == AllSources(docs[..d] + docs[d + 1..], chunkSize, overlap)
  {
    assert docs == docs[..d + 1] + docs[d + 1..];
    assert docs[..d + 1][..d] == docs[..d];
    assert DocChunks(docs[d], chunkSize, overlap) == [];
    assert DocSources(docs[d], chunkSize, overlap) == [];
    assert AllChunks(docs[..d + 1], chunkSize, overlap) == AllChunks(docs[..d], chunkSize, overlap);
    assert AllSources(docs[..d + 1], chunkSize, overlap) == AllSources(docs[..d], chunkSize, overlap);
    AllChunksAppend(docs[..d + 1], docs[d + 1..], chunkSize, overlap);
    AllChunksAppend(docs[..d], docs[d + 1..], chunkSize, overlap);
    AllSourcesAppend(docs[..d + 1], docs[d + 1..], chunkSize, overlap);
    AllSourcesAppend(docs[..d], docs[d + 1..], chunkSize, overlap);
  }

  /** Every metadata entry names a document of the input and carries one of
      that document's chunks. */
  lemma {:induction false} SourcesComeFromDocuments(docs: seq<Document>, chunkSize: nat, overlap: nat, i: nat)
    requires overlap < chunkSize
    requires i < |AllSources(docs, chunkSize, overlap)|
    ensures exists d :: 0 <= d < |docs| &&
              AllSources(docs, chunkSize, overlap)[i].filename == docs[d].filename &&
              AllSources(docs, chunkSize, overlap)[i].text in DocChunks(docs[d], chunkSize, overlap)
  {
    var init := docs[..|docs| - 1];
    var prefix := AllSources(init, chunkSize, overlap);
    if i < |prefix| {
      SourcesComeFromDocuments(init, chunkSize, overlap, i);
      var d :| 0 <= d < |init| && prefix[i].filename == init[d].filename
                && prefix[i].text in DocChunks(init[d], chunkSize, overlap);
      assert docs[d] == init[d];
    } else {
      var last := docs[|docs| - 1];
      assert AllSources(docs, chunkSize, overlap)[i] == DocSources(last, chunkSize, overlap)[i - |prefix|];
      assert docs[|docs| - 1] == last;
    }
  }
}
