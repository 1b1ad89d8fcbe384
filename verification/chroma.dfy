/**
 * The two things the pipeline needs from chromadb: the payload a collection
 * receives through `get_or_create_collection(name=...)` and `upsert(...)`,
 * and the nearest-neighbour query. The client, the embedding model and the
 * storage behind them are outside this model; the query is a parameter.
 */
module Chroma {

  /** A collection as the pipeline fills it: its name, and the `documents`,
      `ids` and `metadatas` lists of the upsert (each metadata is the value
      of its `'path'` key). */
  datatype Collection = Collection(
    name: string,
    documents: seq<string>,
    ids: seq<string>,
    metadatas: seq<string>)

  /** `collection.query(query_texts=[q], n_results=1)`, reduced to its first
      document and its first distance. */
  type Query = (Collection, string) -> (string, real)
}
