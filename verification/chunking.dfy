/**
 * src/chunking.py holds a second copy of `chunk_text_by_sentence`. Its loop
 * is modelled on its own here and proved to compute the very chunks the
 * copy in src/chunk_processing.py computes, so every property proved in
 * `ChunkProcessing` about `ChunkText` holds for this copy too.
 */
module Chunking {
  import opened PyText
  import opened ChunkProcessing

  /** `chunk_text_by_sentence` of src/chunking.py. */
  method ChunkTextBySentence(text: string, n: int) returns (chunks: seq<string>)
    ensures chunks == ChunkProcessing.ChunkText(text, n)
  {
    var sentences := Sentences(text);
    chunks := [];
    var currentChunk := "";
    ghost var start: nat := 0;
    for i := 0 to |sentences|
      invariant ChunkLoopInv(sentences, n, i, start, currentChunk, chunks)
    {
      var sentence := sentences[i];
      if |currentChunk| + |sentence| + 1 > n && currentChunk != "" {
        ChunkLoopSeal(sentences, n, i, start, currentChunk, chunks);
        currentChunk := currentChunk + sentence + " ";
        chunks := chunks + [Strip(currentChunk)];
        currentChunk := sentence + " ";
        start := i;
      } else {
        ChunkLoopGrow(sentences, n, i, start, currentChunk, chunks);
        currentChunk := currentChunk + sentence + " ";
      }
    }
    ChunkLoopEnd(sentences, n, start, currentChunk, chunks);
    if currentChunk != "" {
      chunks := chunks + [Strip(currentChunk)];
    }
  }
}
